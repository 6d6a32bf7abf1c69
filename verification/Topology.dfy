/**
  Interface topology: the depth-first search of `roce_health._topology` and of
  `pod_probe._interface_leaf_topology`, as a function of the interface graph.
 */
module Topology {
  import opened Ordering

  type Name = string

  datatype Interface = Interface(bondSlaves: seq<Name>, lowerInterfaces: seq<Name>)

  type Graph = map<Name, Interface>

  /** The non-empty names among `names` and `seen`, each once. */
  function Unique(names: seq<Name>, seen: set<Name>): (r: seq<Name>)
    ensures Distinct(r)
    ensures forall x :: x in r <==> x in names && x != "" && x !in seen
  {
    if names == [] then [] else
      var x, rest := names[0], names[1..];
      assert forall y :: y in names <==> y == x || y in rest;
      if x == "" || x in seen then Unique(rest, seen) else [x] + Unique(rest, seen + {x})
  }

  /** The sorted set of bond slaves and lower interfaces. */
  function Children(i: Interface): seq<Name> {
    Sort(TextLeq, Unique(i.bondSlaves + i.lowerInterfaces, {}))
  }

  lemma ChildrenAre(i: Interface)
    ensures forall x :: x in Children(i) <==> x != "" && (x in i.bondSlaves || x in i.lowerInterfaces)
    ensures Distinct(Children(i)) && Sorted(TextLeq, Children(i))
  {
    hide TextLeq;
    var all := Unique(i.bondSlaves + i.lowerInterfaces, {});
    TextOrder();
    SortSorted(TextLeq, all);
    SortMultiset(TextLeq, all);
    SameCountsDistinct(all, Children(i));
  }

  // ---------------------------------------------------------------- the search

  datatype Found = Found(paths: seq<seq<Name>>, cycles: seq<seq<Name>>, missing: set<Name>)

  function Elements(path: seq<Name>): set<Name> {
    set x | x in path
  }

  function Index(path: seq<Name>, x: Name): (i: nat)
    requires x in path
    ensures i < |path| && path[i] == x
  {
    if path[0] == x then 0 else 1 + Index(path[1..], x)
  }

  function Both(a: Found, b: Found): Found {
    Found(a.paths + b.paths, a.cycles + b.cycles, a.missing + b.missing)
  }

  /**
    `walk(current, path)`. The report's search lists the paths that end in a cycle or in a
    missing interface as well; the probe's search lists only paths to present childless ones.
   */
  function Walk(g: Graph, current: Name, path: seq<Name>, probe: bool): Found
    decreases g.Keys - Elements(path), 0
  {
    var here := path + [current];
    if current in path then Found(if probe then [] else [here], [path[Index(path, current)..] + [current]], {})
    else if current !in g then Found(if probe then [] else [here], [], {current})
    else if Children(g[current]) == [] then Found([here], [], {})
    else
      assert current in g.Keys - Elements(path) && current !in g.Keys - Elements(here);
      assert g.Keys - Elements(here) <= g.Keys - Elements(path);
      WalkAll(g, Children(g[current]), here, probe)
  }

  function WalkAll(g: Graph, children: seq<Name>, path: seq<Name>, probe: bool): Found
    decreases g.Keys - Elements(path), 1 + |children|
  {
    if children == [] then Found([], [], {})
    else Both(Walk(g, children[0], path, probe), WalkAll(g, children[1..], path, probe))
  }

  // ---------------------------------------------------------------- walks in the graph

  ghost predicate Edge(g: Graph, a: Name, b: Name) {
    a in g && b in Children(g[a])
  }

  ghost predicate IsWalk(g: Graph, p: seq<Name>) {
    p != [] && forall i :: 0 <= i < |p| - 1 ==> Edge(g, p[i], p[i + 1])
  }

  function Last(p: seq<Name>): Name
    requires p != []
  {
    p[|p| - 1]
  }

  ghost predicate WalkFrom(g: Graph, a: Name, b: Name, p: seq<Name>) {
    IsWalk(g, p) && p[0] == a && Last(p) == b
  }

  ghost predicate Reaches(g: Graph, a: Name, b: Name) {
    exists p :: WalkFrom(g, a, b, p)
  }

  /** A closed walk that the start can reach. */
  ghost predicate ReachableCycle(g: Graph, start: Name, c: seq<Name>) {
    IsWalk(g, c) && |c| >= 2 && c[0] == Last(c) && Reaches(g, start, c[0])
  }

  lemma WalkPart(g: Graph, p: seq<Name>, i: nat, j: nat)
    requires IsWalk(g, p) && i < j <= |p|
    ensures IsWalk(g, p[i..j])
  {
    var q := p[i..j];
    forall k | 0 <= k < |q| - 1 ensures Edge(g, q[k], q[k + 1]) {
      assert Edge(g, p[i + k], p[i + k + 1]);
    }
  }

  lemma WalkExtend(g: Graph, p: seq<Name>, b: Name)
    requires IsWalk(g, p) && Edge(g, Last(p), b)
    ensures IsWalk(g, p + [b])
  {
    var q := p + [b];
    forall k | 0 <= k < |q| - 1 ensures Edge(g, q[k], q[k + 1]) {
      if k < |p| - 1 { assert Edge(g, p[k], p[k + 1]); }
    }
  }

  lemma WalkJoin(g: Graph, p: seq<Name>, q: seq<Name>)
    requires IsWalk(g, p) && IsWalk(g, q) && Last(p) == q[0]
    ensures IsWalk(g, p + q[1..])
  {
    var r := p + q[1..];
    forall k | 0 <= k < |r| - 1 ensures Edge(g, r[k], r[k + 1]) {
      if k < |p| - 1 { assert Edge(g, p[k], p[k + 1]); }
      else { assert Edge(g, q[k - (|p| - 1)], q[k - (|p| - 1) + 1]); }
    }
  }

  /** Every walk can be shortened to one without repetitions. */
  lemma {:induction false} Shorten(g: Graph, p: seq<Name>) returns (q: seq<Name>)
    requires IsWalk(g, p)
    ensures IsWalk(g, q) && Distinct(q) && q[0] == p[0] && Last(q) == Last(p)
    decreases |p|
  {
    if Distinct(p) {
      q := p;
    } else {
      var i, j :| 0 <= i < j < |p| && p[i] == p[j];
      var less := CutOut(g, p, i, j);
      q := Shorten(g, less);
    }
  }

  /** What lies between two visits of one name can be left out. */
  lemma CutOut(g: Graph, p: seq<Name>, i: nat, j: nat) returns (q: seq<Name>)
    requires IsWalk(g, p) && i < j < |p| && p[i] == p[j]
    ensures IsWalk(g, q) && |q| < |p| && q[0] == p[0] && Last(q) == Last(p)
  {
    WalkPart(g, p, 0, i + 1);
    WalkPart(g, p, j, |p|);
    var front, back := p[0..i + 1], p[j..];
    hide IsWalk;
    WalkJoin(g, front, back);
    q := front + back[1..];
  }

  // ---------------------------------------------------------------- soundness

  /** Everything a search reports about a graph, seen from the first node of the path so far. */
  ghost predicate Sound(g: Graph, start: Name, f: Found, probe: bool) {
    && (forall p :: p in f.paths ==> IsWalk(g, p) && p[0] == start)
    && (forall p :: p in f.paths && probe ==> Last(p) in g && Children(g[Last(p)]) == [])
    && (forall c :: c in f.cycles ==> ReachableCycle(g, start, c))
    && (forall x :: x in f.missing ==> x !in g && Reaches(g, start, x))
  }

  lemma SoundBoth(g: Graph, start: Name, a: Found, b: Found, probe: bool)
    requires Sound(g, start, a, probe) && Sound(g, start, b, probe)
    ensures Sound(g, start, Both(a, b), probe)
  {
    hide ReachableCycle, Reaches, IsWalk;
  }

  lemma CycleFound(g: Graph, current: Name, path: seq<Name>)
    requires IsWalk(g, path + [current]) && current in path
    ensures ReachableCycle(g, path[0], path[Index(path, current)..] + [current])
  {
    var here, i := path + [current], Index(path, current);
    var c := path[i..] + [current];
    assert here[i..|here|] == c;
    WalkPart(g, here, i, |here|);
    WalkPart(g, here, 0, i + 1);
    assert WalkFrom(g, path[0], current, here[0..i + 1]);
  }

  lemma {:induction false} WalkSound(g: Graph, current: Name, path: seq<Name>, probe: bool)
    requires IsWalk(g, path + [current])
    ensures Sound(g, (path + [current])[0], Walk(g, current, path, probe), probe)
    decreases g.Keys - Elements(path), 0
  {
    var here := path + [current];
    if current in path {
      CycleFound(g, current, path);
    } else if current !in g {
      assert WalkFrom(g, here[0], current, here);
    } else if Children(g[current]) != [] {
      assert current in g.Keys - Elements(path) && current !in g.Keys - Elements(here);
      assert g.Keys - Elements(here) <= g.Keys - Elements(path);
      WalkAllSound(g, Children(g[current]), here, probe);
    }
  }

  lemma {:induction false} WalkAllSound(g: Graph, children: seq<Name>, path: seq<Name>, probe: bool)
    requires IsWalk(g, path) && forall c :: c in children ==> Edge(g, Last(path), c)
    ensures Sound(g, path[0], WalkAll(g, children, path, probe), probe)
    decreases g.Keys - Elements(path), 1 + |children|
  {
    hide Sound;
    if children == [] {
      NothingSound(g, path[0], probe);
    } else {
      assert children[0] in children;
      WalkExtend(g, path, children[0]);
      WalkSound(g, children[0], path, probe);
      WalkAllSound(g, children[1..], path, probe);
      SoundBoth(g, path[0], Walk(g, children[0], path, probe), WalkAll(g, children[1..], path, probe), probe);
    }
  }

  lemma NothingSound(g: Graph, start: Name, probe: bool)
    ensures Sound(g, start, Found([], [], {}), probe)
  {
  }

  // ---------------------------------------------------------------- completeness

  ghost predicate Within(a: Found, b: Found) {
    && (forall p :: p in a.paths ==> p in b.paths)
    && (forall c :: c in a.cycles ==> c in b.cycles)
    && a.missing <= b.missing
  }

  lemma {:induction false} ChildWithin(g: Graph, children: seq<Name>, path: seq<Name>, probe: bool, c: Name)
    requires c in children
    ensures Within(Walk(g, c, path, probe), WalkAll(g, children, path, probe))
    decreases |children|
  {
    hide Walk;
    if c != children[0] {
      ChildWithin(g, children[1..], path, probe, c);
    }
  }

  /** The search follows every repetition-free walk. */
  lemma {:induction false} Follow(g: Graph, current: Name, path: seq<Name>, tail: seq<Name>, probe: bool)
    requires IsWalk(g, path + [current] + tail) && Distinct(path + [current] + tail) && tail != []
    ensures Within(WalkAll(g, [Last(tail)], path + [current] + tail[..|tail| - 1], probe),
            Walk(g, current, path, probe))
    decreases |tail|
  {
    hide Walk, WalkAll, Children;
    var here := path + [current];
    var w := here + tail;
    assert Edge(g, w[|path|], w[|path| + 1]);
    StepInto(g, current, path, tail[0], probe);
    assert forall i :: 0 <= i < |path| ==> w[i] == path[i];
    assert w[|path|] == current;
    NotYet(w, path, current);
    if |tail| == 1 {
      assert tail == [Last(tail)] && here + [] == here;
      Single(g, tail[0], here, probe);
    } else {
      var rest := tail[1..];
      assert here + [tail[0]] + rest == w;
      Follow(g, tail[0], here, rest, probe);
      assert here + [tail[0]] + rest[..|rest| - 1] == here + tail[..|tail| - 1];
    }
  }

  lemma NotYet(w: seq<Name>, path: seq<Name>, current: Name)
    requires Distinct(w) && |path| < |w| && w[..|path|] == path && w[|path|] == current
    ensures current !in path
  {
    forall i | 0 <= i < |path| ensures path[i] != current {
      assert w[i] == path[i];
    }
  }

  lemma Single(g: Graph, c: Name, path: seq<Name>, probe: bool)
    ensures Within(WalkAll(g, [c], path, probe), Walk(g, c, path, probe))
    ensures Within(Walk(g, c, path, probe), WalkAll(g, [c], path, probe))
  {
    hide Walk;
    var one: seq<Name>, none: seq<Name> := [c], [];
    assert one[1..] == none;
    assert WalkAll(g, one, path, probe) == Both(Walk(g, c, path, probe), WalkAll(g, none, path, probe));
  }

  /** Entering a present node that is not yet on the path searches each of its children. */
  lemma StepInto(g: Graph, current: Name, path: seq<Name>, c: Name, probe: bool)
    requires Edge(g, current, c)
    ensures current !in path ==> Within(Walk(g, c, path + [current], probe), Walk(g, current, path, probe))
  {
    hide Children;
    if current !in path {
      ChildWithin(g, Children(g[current]), path + [current], probe, c);
      Unfold(g, current, path, probe);
    }
  }

  lemma Unfold(g: Graph, current: Name, path: seq<Name>, probe: bool)
    requires current !in path && current in g && Children(g[current]) != []
    ensures Walk(g, current, path, probe) == WalkAll(g, Children(g[current]), path + [current], probe)
  {
    hide Children, WalkAll;
  }

  /** From the start, the search arrives at the end of every repetition-free walk. */
  lemma Arrives(g: Graph, w: seq<Name>, probe: bool)
    requires IsWalk(g, w) && Distinct(w)
    ensures Within(Walk(g, Last(w), w[..|w| - 1], probe), Walk(g, w[0], [], probe))
  {
    hide Walk, WalkAll, Edge;
    if |w| > 1 {
      assert [] + [w[0]] + w[1..] == w;
      assert [] + [w[0]] + w[1..][..|w| - 2] == w[..|w| - 1];
      Follow(g, w[0], [], w[1..], probe);
      Single(g, Last(w), w[..|w| - 1], probe);
    } else {
      assert w[..|w| - 1] == [];
    }
  }

  /** A step back onto the path is reported as a cycle. */
  lemma RepeatFound(g: Graph, v: seq<Name>, y: Name, probe: bool)
    requires IsWalk(g, v) && Distinct(v) && Edge(g, Last(v), y) && y in v
    ensures Walk(g, v[0], [], probe).cycles != []
  {
    hide WalkAll, Children, Edge;
    Arrives(g, v, probe);
    var front := v[..|v| - 1];
    assert front + [Last(v)] == v;
    NotYet(v, front, Last(v));
    StepInto(g, Last(v), front, y, probe);
    var c := v[Index(v, y)..] + [y];
    assert c in Walk(g, y, v, probe).cycles;
    assert c in Walk(g, v[0], [], probe).cycles;
  }

  /** If no cycle is reported, no walk from the start repeats a node. */
  lemma {:induction false} NoCycleNoRepeat(g: Graph, w: seq<Name>, probe: bool)
    requires IsWalk(g, w) && Walk(g, w[0], [], probe).cycles == []
    ensures Distinct(w)
    decreases |w|
  {
    hide Walk, Children;
    if |w| > 1 {
      var n := |w| - 1;
      var v, y := w[..n], w[n];
      WalkPart(g, w, 0, n);
      assert w[0..n] == v;
      NoCycleNoRepeat(g, v, probe);
      assert Edge(g, w[n - 1], w[n]);
      if y in v {
        RepeatFound(g, v, y, probe);
      }
      assert w == v + [y];
    }
  }

  /**
    Main result: a cycle is reported iff the start reaches one, and every reported cycle is a reachable closed
    walk.
   */
  lemma CyclesReported(g: Graph, start: Name, probe: bool)
    ensures Walk(g, start, [], probe).cycles != [] <==> exists c :: ReachableCycle(g, start, c)
    ensures forall c :: c in Walk(g, start, [], probe).cycles ==> ReachableCycle(g, start, c)
  {
    hide Walk, Edge;
    var f := Walk(g, start, [], probe);
    WalkSound(g, start, [], probe);
    if f.cycles != [] {
      assert f.cycles[0] in f.cycles;
    }
    if exists c :: ReachableCycle(g, start, c) {
      var c :| ReachableCycle(g, start, c);
      var p :| WalkFrom(g, start, c[0], p);
      WalkJoin(g, p, c);
      var w := p + c[1..];
      assert w[|p| - 1] == w[|w| - 1];
      if f.cycles == [] {
        NoCycleNoRepeat(g, w, probe);
      }
    }
  }

  /** Main result: `missing_interfaces` is exactly the reachable names absent from the inventory. */
  lemma MissingReported(g: Graph, start: Name, probe: bool, x: Name)
    ensures x in Walk(g, start, [], probe).missing <==> x !in g && Reaches(g, start, x)
  {
    WalkSound(g, start, [], probe);
    if x !in g && Reaches(g, start, x) {
      hide Walk, Edge;
      var p :| WalkFrom(g, start, x, p);
      var w := Shorten(g, p);
      Arrives(g, w, probe);
      var front := w[..|w| - 1];
      NotYet(w, front, x);
      AtMissing(g, x, front, probe);
    }
  }

  lemma AtMissing(g: Graph, x: Name, path: seq<Name>, probe: bool)
    requires x !in path && x !in g
    ensures Walk(g, x, path, probe) == Found(if probe then [] else [path + [x]], [], {x})
  {
    hide WalkAll;
  }

  lemma AtLeaf(g: Graph, x: Name, path: seq<Name>, probe: bool)
    requires x !in path && x in g && Children(g[x]) == []
    ensures Walk(g, x, path, probe) == Found([path + [x]], [], {})
  {
    hide WalkAll, Children;
  }

  /** The last nodes of the listed paths. */
  ghost predicate IsLeaf(f: Found, x: Name) {
    exists p :: p in f.paths && p != [] && Last(p) == x
  }

  ghost predicate ReachableLeaf(g: Graph, start: Name, x: Name) {
    x in g && Children(g[x]) == [] && Reaches(g, start, x)
  }

  /** Every reachable childless interface is a leaf, in both searches. */
  lemma LeafReported(g: Graph, start: Name, probe: bool, x: Name)
    requires ReachableLeaf(g, start, x)
    ensures IsLeaf(Walk(g, start, [], probe), x)
  {
    hide Walk, Edge, Children;
    var p :| WalkFrom(g, start, x, p);
    var w := Shorten(g, p);
    Arrives(g, w, probe);
    var front := w[..|w| - 1];
    NotYet(w, front, x);
    AtLeaf(g, x, front, probe);
    assert front + [x] in Walk(g, x, front, probe).paths;
    assert front + [x] in Walk(g, start, [], probe).paths;
    assert Last(front + [x]) == x;
  }

  /** Main result: the probe's leaves are exactly the reachable, present, childless interfaces. */
  lemma ProbeLeaves(g: Graph, start: Name, x: Name)
    ensures IsLeaf(Walk(g, start, [], true), x) <==> ReachableLeaf(g, start, x)
  {
    hide Walk, Edge, Children;
    var f := Walk(g, start, [], true);
    WalkSound(g, start, [], true);
    if IsLeaf(f, x) {
      var p :| p in f.paths && p != [] && Last(p) == x;
      assert WalkFrom(g, start, x, p);
    }
    if ReachableLeaf(g, start, x) {
      LeafReported(g, start, true, x);
    }
  }

  /**
    Each listed path ends in a childless interface, a missing one, or the node that closes a cycle; and all
    those are listed.
   */
  ghost predicate TailsAre(g: Graph, f: Found) {
    && (forall p :: p in f.paths ==>
          p != [] && (Last(p) in f.missing || ClosesCycle(f, Last(p)) || (Last(p) in g && Children(g[Last(p)]) == [])))
    && (forall x :: x in f.missing || ClosesCycle(f, x) ==> IsLeaf(f, x))
  }

  ghost predicate ClosesCycle(f: Found, x: Name) {
    exists c :: c in f.cycles && c != [] && Last(c) == x
  }

  lemma TailsBoth(g: Graph, a: Found, b: Found)
    requires TailsAre(g, a) && TailsAre(g, b)
    ensures TailsAre(g, Both(a, b))
  {
    hide Children;
    var f := Both(a, b);
    forall x | ClosesCycle(a, x) || ClosesCycle(b, x) ensures ClosesCycle(f, x) {
      var c :| (c in a.cycles || c in b.cycles) && c != [] && Last(c) == x;
      assert c in f.cycles;
    }
    forall x | IsLeaf(a, x) || IsLeaf(b, x) ensures IsLeaf(f, x) {
      var p :| (p in a.paths || p in b.paths) && p != [] && Last(p) == x;
      assert p in f.paths;
    }
    forall x | ClosesCycle(f, x) ensures ClosesCycle(a, x) || ClosesCycle(b, x) {
      var c :| c in f.cycles && c != [] && Last(c) == x;
      assert c in a.cycles || c in b.cycles;
    }
  }

  lemma {:induction false} WalkTails(g: Graph, current: Name, path: seq<Name>)
    ensures TailsAre(g, Walk(g, current, path, false))
    decreases g.Keys - Elements(path), 0
  {
    var here := path + [current];
    if current in path {
      OnePath(g, current, path, [path[Index(path, current)..] + [current]], {});
    } else if current !in g {
      OnePath(g, current, path, [], {current});
    } else if Children(g[current]) != [] {
      assert current in g.Keys - Elements(path) && current !in g.Keys - Elements(here);
      assert g.Keys - Elements(here) <= g.Keys - Elements(path);
      WalkAllTails(g, Children(g[current]), here);
    }
  }

  lemma OnePath(g: Graph, current: Name, path: seq<Name>, cycles: seq<seq<Name>>, missing: set<Name>)
    requires (|cycles| == 1 && cycles[0] != [] && Last(cycles[0]) == current && missing == {})
              || (cycles == [] && missing == {current})
    ensures TailsAre(g, Found([path + [current]], cycles, missing))
  {
    var f := Found([path + [current]], cycles, missing);
    assert path + [current] in f.paths;
    assert IsLeaf(f, current);
    if cycles != [] { assert cycles[0] in f.cycles; }
  }

  lemma {:induction false} WalkAllTails(g: Graph, children: seq<Name>, path: seq<Name>)
    ensures TailsAre(g, WalkAll(g, children, path, false))
    decreases g.Keys - Elements(path), 1 + |children|
  {
    hide Walk, TailsAre;
    if children == [] {
      NoTails(g);
    } else {
      WalkTails(g, children[0], path);
      WalkAllTails(g, children[1..], path);
      TailsBoth(g, Walk(g, children[0], path, false), WalkAll(g, children[1..], path, false));
    }
  }

  lemma NoTails(g: Graph)
    ensures TailsAre(g, Found([], [], {}))
  {
  }

  /**
    Main result: the report's leaves are the childless reachable interfaces, the missing names and the nodes
    that close a cycle.
   */
  lemma ReportLeaves(g: Graph, start: Name, x: Name)
    ensures var f := Walk(g, start, [], false);
            IsLeaf(f, x) <==> ReachableLeaf(g, start, x) || x in f.missing || ClosesCycle(f, x)
  {
    hide Walk, Edge, Children;
    var f := Walk(g, start, [], false);
    WalkSound(g, start, [], false);
    WalkTails(g, start, []);
    if IsLeaf(f, x) {
      var p :| p in f.paths && p != [] && Last(p) == x;
      assert WalkFrom(g, start, x, p);
    }
    if ReachableLeaf(g, start, x) {
      LeafReported(g, start, false, x);
    }
  }

  // ---------------------------------------------------------------- the two searches agree

  ghost predicate SameShape(probe: Found, report: Found) {
    && probe.cycles == report.cycles && probe.missing == report.missing
    && (report.cycles == [] && report.missing == {} ==> probe.paths == report.paths)
  }

  lemma {:induction false} WalksAgree(g: Graph, current: Name, path: seq<Name>)
    ensures SameShape(Walk(g, current, path, true), Walk(g, current, path, false))
    decreases g.Keys - Elements(path), 0
  {
    if current !in path && current in g && Children(g[current]) != [] {
      hide Children, WalkAll;
      var here := path + [current];
      assert current in g.Keys - Elements(path) && current !in g.Keys - Elements(here);
      assert g.Keys - Elements(here) <= g.Keys - Elements(path);
      WalkAllAgree(g, Children(g[current]), here);
    }
  }

  lemma {:induction false} WalkAllAgree(g: Graph, children: seq<Name>, path: seq<Name>)
    ensures SameShape(WalkAll(g, children, path, true), WalkAll(g, children, path, false))
    decreases g.Keys - Elements(path), 1 + |children|
  {
    hide Walk;
    if children != [] {
      WalksAgree(g, children[0], path);
      WalkAllAgree(g, children[1..], path);
    }
  }

  /** Main result: both searches report the same cycles and missing names, and the same paths when there are none. */
  lemma SearchesAgree(g: Graph, start: Name)
    ensures SameShape(Walk(g, start, [], true), Walk(g, start, [], false))
  {
    WalksAgree(g, start, []);
  }
}
