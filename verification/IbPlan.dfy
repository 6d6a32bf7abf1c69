/** The all-directions InfiniBand test plan and its port allocation (`build_ib_test_plan`, `_run_ib_checks`). */
module IbPlan {
  import opened Wrappers
  import opened Ordering

  type Node = string

  datatype Spec = Spec(source: Node, destination: Node, sourceHca: string, destinationHca: string, rail: nat)

  datatype PlanError = MissingInventory | CountMismatch

  /** Each node at its first occurrence. */
  function Firsts(nodes: seq<Node>): seq<Node> {
    if nodes == [] then [] else
      var before, n := Firsts(nodes[..|nodes| - 1]), nodes[|nodes| - 1];
      if n in before then before else before + [n]
  }

  lemma {:induction false} FirstsAre(nodes: seq<Node>)
    ensures Distinct(Firsts(nodes)) && (forall n :: n in Firsts(nodes) <==> n in nodes)
    ensures |Firsts(nodes)| <= |nodes|
    ensures |Firsts(nodes)| == |nodes| <==> Distinct(nodes)
  {
    if nodes != [] {
      var k := |nodes| - 1;
      FirstsAre(nodes[..k]);
      assert nodes == nodes[..k] + [nodes[k]];
    }
  }

  /** `x` is listed before any `y` is. */
  ghost predicate ListedBefore(nodes: seq<Node>, x: Node, y: Node) {
    exists p :: 0 <= p < |nodes| && nodes[p] == x && y !in nodes[..p + 1]
  }

  lemma ListedMore(nodes: seq<Node>, n: Node)
    ensures forall x, y :: ListedBefore(nodes, x, y) ==> ListedBefore(nodes + [n], x, y)
    ensures n !in nodes ==> forall x :: x in nodes ==> ListedBefore(nodes + [n], x, n)
  {
    var all := nodes + [n];
    forall x, y | ListedBefore(nodes, x, y) ensures ListedBefore(all, x, y) {
      var p :| 0 <= p < |nodes| && nodes[p] == x && y !in nodes[..p + 1];
      assert all[..p + 1] == nodes[..p + 1] && all[p] == x;
    }
    if n !in nodes {
      forall x | x in nodes ensures ListedBefore(all, x, n) {
        var p :| 0 <= p < |nodes| && nodes[p] == x;
        assert all[..p + 1] == nodes[..p + 1] && all[p] == x;
      }
    }
  }

  /** The first occurrences keep their order. */
  lemma {:induction false} FirstsInOrder(nodes: seq<Node>)
    ensures forall i, j :: 0 <= i < j < |Firsts(nodes)| ==> ListedBefore(nodes, Firsts(nodes)[i], Firsts(nodes)[j])
  {
    if nodes != [] {
      var k := |nodes| - 1;
      FirstsInOrder(nodes[..k]);
      FirstsAre(nodes[..k]);
      hide ListedBefore;
      assert nodes == nodes[..k] + [nodes[k]];
      ListedMore(nodes[..k], nodes[k]);
      var before := Firsts(nodes[..k]);
      assert forall i :: 0 <= i < |before| ==> before[i] in before;
    }
  }

  /** list(dict.fromkeys(nodes)) */
  method FirstOccurrences(nodes: seq<Node>) returns (ordered: seq<Node>)
    ensures ordered == Firsts(nodes)
    ensures Distinct(ordered) && (forall n :: n in ordered <==> n in nodes)
    ensures forall i, j :: 0 <= i < j < |ordered| ==> ListedBefore(nodes, ordered[i], ordered[j])
  {
    FirstsAre(nodes);
    FirstsInOrder(nodes);
    hide ListedBefore;
    ordered := [];
    assert nodes[..0] == [];
    for i := 0 to |nodes|
      invariant ordered == Firsts(nodes[..i])
    {
      assert nodes[..i + 1][..i] == nodes[..i];
      if nodes[i] !in ordered {
        ordered := ordered + [nodes[i]];
      }
    }
    assert nodes[..|nodes|] == nodes;
  }

  /** Every rail of one ordered pair. */
  function Pair(hcas: map<Node, seq<string>>, s: Node, d: Node, rails: nat): (r: seq<Spec>)
    requires s in hcas && d in hcas && |hcas[s]| == |hcas[d]| && rails <= |hcas[s]|
    ensures |r| == rails
    ensures forall k :: 0 <= k < rails ==> r[k] == Spec(s, d, hcas[s][k], hcas[d][k], k)
  {
    seq(rails, k requires 0 <= k < rails => Spec(s, d, hcas[s][k], hcas[d][k], k))
  }

  ghost predicate Uniform(hcas: map<Node, seq<string>>, nodes: seq<Node>, rails: nat) {
    forall n :: n in nodes ==> n in hcas && |hcas[n]| == rails
  }

  /** All pairs from `s` to the destinations other than itself. */
  function From(hcas: map<Node, seq<string>>, s: Node, destinations: seq<Node>, rails: nat): seq<Spec>
    requires Uniform(hcas, [s] + destinations, rails)
  {
    if destinations == [] then [] else
      var n := |destinations| - 1;
      assert s in [s] + destinations && destinations[n] in [s] + destinations;
      assert forall x :: x in [s] + destinations[..n] ==> x in [s] + destinations;
      From(hcas, s, destinations[..n], rails)
      + (if destinations[n] == s then [] else Pair(hcas, s, destinations[n], rails))
  }

  function All(hcas: map<Node, seq<string>>, sources: seq<Node>, nodes: seq<Node>, rails: nat): seq<Spec>
    requires Uniform(hcas, nodes, rails) && forall s :: s in sources ==> s in nodes
  {
    if sources == [] then [] else
      var n := |sources| - 1;
      assert sources[n] in sources;
      assert forall x :: x in [sources[n]] + nodes ==> x in nodes;
      All(hcas, sources[..n], nodes, rails) + From(hcas, sources[n], nodes, rails)
  }

  /** Two different nodes, named with the adapter each has on the rail. */
  predicate OnRail(hcas: map<Node, seq<string>>, rails: nat, t: Spec) {
    && t.source != t.destination && t.rail < rails
    && t.source in hcas && t.destination in hcas && t.rail < |hcas[t.source]| && t.rail < |hcas[t.destination]|
    && t.sourceHca == hcas[t.source][t.rail] && t.destinationHca == hcas[t.destination][t.rail]
  }

  /** What one direction on one rail must be. */
  predicate IsDirection(hcas: map<Node, seq<string>>, nodes: seq<Node>, rails: nat, t: Spec) {
    t.source in nodes && t.destination in nodes && OnRail(hcas, rails, t)
  }

  /** The pairs with the last destination come last. */
  lemma {:induction false} FromLast(hcas: map<Node, seq<string>>, s: Node, front: seq<Node>, d: Node, rails: nat)
    requires Uniform(hcas, [s] + (front + [d]), rails)
    ensures Uniform(hcas, [s] + front, rails) && Uniform(hcas, [s, d], rails)
    ensures From(hcas, s, front + [d], rails)
         == From(hcas, s, front, rails) + (if d == s then [] else PairOf(hcas, s, d, rails))
  {
    var all := front + [d];
    forall x | x in [s] + front || x in [s, d] ensures x in [s] + all {}
    assert all[..|all| - 1] == front && all[|all| - 1] == d;
    assert s in [s, d] && d in [s, d];
  }

  /** `Pair` without conditions on its arguments. */
  function PairOf(hcas: map<Node, seq<string>>, s: Node, d: Node, rails: nat): seq<Spec> {
    if s in hcas && d in hcas && |hcas[s]| == |hcas[d]| == rails then Pair(hcas, s, d, rails) else []
  }

  lemma PairIs(hcas: map<Node, seq<string>>, s: Node, d: Node, rails: nat)
    requires Uniform(hcas, [s, d], rails) && d != s
    ensures var r := PairOf(hcas, s, d, rails);
            && (forall t :: t in r <==> t.source == s && t.destination == d && OnRail(hcas, rails, t))
            && Distinct(r) && |r| == rails
  {
    assert s in [s, d] && d in [s, d];
    var r := PairOf(hcas, s, d, rails);
    forall t: Spec | t.source == s && t.destination == d && OnRail(hcas, rails, t) ensures t in r {
      assert r[t.rail] == t;
    }
  }

  lemma {:induction false} FromElements(hcas: map<Node, seq<string>>, s: Node, nodes: seq<Node>, rails: nat)
    requires Uniform(hcas, [s] + nodes, rails)
    ensures forall t :: t in From(hcas, s, nodes, rails) <==>
                          t.source == s && t.destination in nodes && OnRail(hcas, rails, t)
  {
    if nodes != [] {
      var n := |nodes| - 1;
      var front, d := nodes[..n], nodes[n];
      assert nodes == front + [d];
      FromLast(hcas, s, front, d, rails);
      hide From, PairOf, Uniform;
      FromElements(hcas, s, front, rails);
      if d != s {
        hide OnRail;
        PairIs(hcas, s, d, rails);
      }
    }
  }

  lemma {:induction false} FromDistinct(hcas: map<Node, seq<string>>, s: Node, nodes: seq<Node>, rails: nat)
    requires Uniform(hcas, [s] + nodes, rails) && Distinct(nodes)
    ensures Distinct(From(hcas, s, nodes, rails))
  {
    if nodes != [] {
      var n := |nodes| - 1;
      var front, d := nodes[..n], nodes[n];
      assert nodes == front + [d] && d !in front && Distinct(front);
      FromLast(hcas, s, front, d, rails);
      hide From, PairOf, OnRail, Uniform;
      FromDistinct(hcas, s, front, rails);
      if d != s {
        FromElements(hcas, s, front, rails);
        PairIs(hcas, s, d, rails);
        Apart(From(hcas, s, front, rails), PairOf(hcas, s, d, rails));
      }
    }
  }

  lemma Apart(a: seq<Spec>, b: seq<Spec>)
    requires Distinct(a) && Distinct(b) && forall t :: t in a ==> t !in b
    ensures Distinct(a + b)
  {
    forall i, j | 0 <= i < |a| && 0 <= j < |b| ensures a[i] != b[j] { assert a[i] in a && b[j] in b; }
    DistinctAppend(a, b);
  }

  lemma {:induction false} FromLength(hcas: map<Node, seq<string>>, s: Node, nodes: seq<Node>, rails: nat)
    requires Uniform(hcas, [s] + nodes, rails) && Distinct(nodes)
    ensures |From(hcas, s, nodes, rails)| == (|nodes| - (if s in nodes then 1 else 0)) * rails
  {
    if nodes != [] {
      var n := |nodes| - 1;
      var front, d := nodes[..n], nodes[n];
      assert nodes == front + [d] && d !in front && Distinct(front);
      FromLast(hcas, s, front, d, rails);
      hide From, PairOf, OnRail, Uniform, Distinct;
      FromLength(hcas, s, front, rails);
      if d != s { PairIs(hcas, s, d, rails); }
      Product(|front| - (if s in front then 1 else 0), rails);
    }
  }

  lemma Product(k: int, rails: nat)
    ensures k * rails + rails == (k + 1) * rails
  {
  }

  lemma {:induction false} AllIs(hcas: map<Node, seq<string>>, sources: seq<Node>, nodes: seq<Node>, rails: nat)
    requires Uniform(hcas, nodes, rails) && Distinct(nodes) && Distinct(sources)
    requires forall s :: s in sources ==> s in nodes
    ensures var r := All(hcas, sources, nodes, rails);
            && (forall t :: t in r <==> t.source in sources && IsDirection(hcas, nodes, rails, t))
            && Distinct(r)
            && |r| == |sources| * ((|nodes| - 1) * rails)
  {
    hide From, OnRail;
    if sources != [] {
      var n := |sources| - 1;
      var front, s := sources[..n], sources[n];
      assert s in sources && sources == front + [s] && s !in front && Distinct(front);
      assert forall x :: x in [s] + nodes ==> x in nodes;
      AllIs(hcas, front, nodes, rails);
      var old_, more := All(hcas, front, nodes, rails), From(hcas, s, nodes, rails);
      assert All(hcas, sources, nodes, rails) == old_ + more;
      hide All, Uniform;
      FromElements(hcas, s, nodes, rails);
      FromDistinct(hcas, s, nodes, rails);
      FromLength(hcas, s, nodes, rails);
      Apart(old_, more);
      Product(|front|, (|nodes| - 1) * rails);
    }
  }

  /** The nested loops over sources, destinations and rails. */
  method Directions(ordered: seq<Node>, hcas: map<Node, seq<string>>, rails: nat) returns (plan: seq<Spec>)
    requires Uniform(hcas, ordered, rails)
    ensures plan == All(hcas, ordered, ordered, rails)
  {
    hide From;
    plan := [];
    assert ordered[..0] == [];
    for i := 0 to |ordered|
      invariant plan == All(hcas, ordered[..i], ordered, rails)
    {
      assert ordered[..i + 1][..i] == ordered[..i];
      assert forall x :: x in [ordered[i]] + ordered ==> x in ordered;
      var directions := PlanFrom(hcas, ordered[i], ordered, rails);
      plan := plan + directions;
    }
    assert ordered[..|ordered|] == ordered;
  }

  /** The plan for nodes with `rails` adapters each. */
  function Planned(hcas: map<Node, seq<string>>, nodes: seq<Node>, rails: nat): seq<Spec>
    requires Uniform(hcas, nodes, rails)
  {
    FirstsAre(nodes);
    All(hcas, Firsts(nodes), Firsts(nodes), rails)
  }

  /** `planned_count`, computed before the plan is built. */
  function Bound(nodes: seq<Node>, rails: nat): nat {
    if nodes == [] then 0 else |nodes| * (|nodes| - 1) * rails
  }

  /** Main result: the plan holds every ordered pair of different nodes on every rail exactly once, and nothing else. */
  lemma PlanExact(hcas: map<Node, seq<string>>, nodes: seq<Node>, rails: nat)
    requires Uniform(hcas, nodes, rails)
    ensures Distinct(Planned(hcas, nodes, rails))
    ensures forall t :: t in Planned(hcas, nodes, rails) <==> IsDirection(hcas, nodes, rails, t)
  {
    hide IsDirection, All, Firsts;
    FirstsAre(nodes);
    AllIs(hcas, Firsts(nodes), Firsts(nodes), rails);
    SameNodes(hcas, Firsts(nodes), nodes, rails);
    forall t | IsDirection(hcas, nodes, rails, t)
        ensures t.source in Firsts(nodes) { DirectionSource(hcas, nodes, rails, t); }
  }

  lemma DirectionSource(hcas: map<Node, seq<string>>, nodes: seq<Node>, rails: nat, t: Spec)
    requires IsDirection(hcas, nodes, rails, t)
    ensures t.source in nodes
  {
  }

  /**
    Main result: the plan is never longer than the bound checked before building it, and is as long as that
    bound exactly when no node is listed twice or there are no adapters.
   */
  lemma PlanLength(hcas: map<Node, seq<string>>, nodes: seq<Node>, rails: nat)
    requires Uniform(hcas, nodes, rails)
    ensures |Planned(hcas, nodes, rails)| <= Bound(nodes, rails)
    ensures |Planned(hcas, nodes, rails)| == Bound(nodes, rails) <==> Distinct(nodes) || rails == 0
  {
    hide All, Firsts, Distinct;
    FirstsAre(nodes);
    var m, n := |Firsts(nodes)|, |nodes|;
    AllIs(hcas, Firsts(nodes), Firsts(nodes), rails);
    if n > 0 {
      assert nodes[0] in Firsts(nodes);
      Lengths(m, n, rails);
    }
  }

  /** With a node listed twice the bound is too large: six for a plan of two, and two for an empty plan. */
  lemma RepeatedNodeBound()
    ensures var hcas := map["a" := ["mlx5_0"], "b" := ["mlx5_0"]];
            && Uniform(hcas, ["a", "b", "a"], 1) && Uniform(hcas, ["a", "a"], 1)
            && |Planned(hcas, ["a", "b", "a"], 1)| == 2 && Bound(["a", "b", "a"], 1) == 6
            && |Planned(hcas, ["a", "a"], 1)| == 0 && Bound(["a", "a"], 1) == 2
  {
    hide All;
    var hcas := map["a" := ["mlx5_0"], "b" := ["mlx5_0"]];
    var one: seq<Node>, two: seq<Node>, aa: seq<Node>, aba: seq<Node> := ["a"], ["a", "b"], ["a", "a"], ["a", "b", "a"];
    assert "a" != "b" by { assert "a"[0] != "b"[0]; }
    assert one[..0] == [] && Firsts(one) == one;
    assert two[..1] == one && Firsts(two) == two;
    assert aa[..1] == one && Firsts(aa) == one;
    assert aba[..2] == two && Firsts(aba) == two;
    AllIs(hcas, one, one, 1);
    AllIs(hcas, two, two, 1);
  }

  /** A plan is built for a single node or for equipped nodes, and is then the plan of every accepted rail count. */
  method BuildPlan(nodes: seq<Node>, hcas: map<Node, seq<string>>) returns (r: Result<seq<Spec>, PlanError>)
    ensures r.Ok? <==> OneNode(nodes) || Equipped(hcas, nodes)
    ensures r.Ok? && OneNode(nodes) ==> r.value == []
    ensures r.Ok? ==> forall rails :: Uniform(hcas, nodes, rails) ==> r.value == Planned(hcas, nodes, rails)
    ensures r.Ok? && !OneNode(nodes) ==> exists rails :: rails > 0 && Uniform(hcas, nodes, rails)
  {
    hide All, Firsts;
    var ordered := FirstOccurrences(nodes);
    FirstsAre(nodes);
    if |ordered| < 2 {
      FewNodes(nodes, ordered);
      forall rails | Uniform(hcas, nodes, rails)
          ensures Planned(hcas, nodes, rails) == [] { AllIs(hcas, ordered, ordered, rails); }
      return Ok([]);
    }
    assert ordered[0] in nodes && ordered[1] in nodes && nodes[0] in ordered;
    if exists i :: 0 <= i < |ordered| && (ordered[i] !in hcas || hcas[ordered[i]] == []) {
      ghost var i :| 0 <= i < |ordered| && (ordered[i] !in hcas || hcas[ordered[i]] == []);
      assert ordered[i] in nodes;
      return Err(MissingInventory);
    }
    assert forall n :: n in ordered ==> n in hcas && hcas[n] != [];
    var rails := |hcas[ordered[0]]|;
    if exists i :: 0 <= i < |ordered| && |hcas[ordered[i]]| != rails {
      ghost var i :| 0 <= i < |ordered| && |hcas[ordered[i]]| != rails;
      assert ordered[i] in nodes;
      return Err(CountMismatch);
    }
    assert Uniform(hcas, ordered, rails);
    SameNodes(hcas, ordered, nodes, rails);
    var plan := Directions(ordered, hcas, rails);
    r := Ok(plan);
  }

  /** Fewer than two different nodes. */
  ghost predicate OneNode(nodes: seq<Node>) {
    forall m, n :: m in nodes && n in nodes ==> m == n
  }

  /** Every node has an inventory, none is empty, and all have the same number of adapters. */
  ghost predicate Equipped(hcas: map<Node, seq<string>>, nodes: seq<Node>) {
    && (forall n :: n in nodes ==> n in hcas && hcas[n] != [])
    && forall m, n :: m in nodes && n in nodes ==> |hcas[m]| == |hcas[n]|
  }

  lemma FewNodes(nodes: seq<Node>, ordered: seq<Node>)
    requires |ordered| < 2 && forall n :: n in ordered <==> n in nodes
    ensures OneNode(nodes)
  {
    forall m, n | m in nodes && n in nodes ensures m == n { assert m in ordered && n in ordered; }
  }

  lemma SameNodes(hcas: map<Node, seq<string>>, ordered: seq<Node>, nodes: seq<Node>, rails: nat)
    requires forall n :: n in ordered <==> n in nodes
    ensures Uniform(hcas, ordered, rails) <==> Uniform(hcas, nodes, rails)
    ensures forall t ::
              IsDirection(hcas, ordered, rails, t) && t.source in ordered <==> IsDirection(hcas, nodes, rails, t)
  {
  }

  /** The length of a plan for `m` of `n` entries against the bound computed from all `n`. */
  lemma Lengths(m: nat, n: nat, rails: nat)
    requires 1 <= m <= n
    ensures m * ((m - 1) * rails) <= n * (n - 1) * rails
    ensures m * ((m - 1) * rails) == n * (n - 1) * rails <==> m == n || rails == 0
  {
    Regroup(m, m - 1, rails);
    if m < n {
      Smaller(m, n);
      if rails > 0 { Less(m * (m - 1), n * (n - 1), rails); } else { Vanish(n * (n - 1), rails); }
    }
  }

  lemma Regroup(a: int, b: int, c: int)
    ensures a * (b * c) == a * b * c
  {
  }

  lemma Vanish(a: int, k: int)
    requires k == 0
    ensures a * k == 0
  {
  }

  lemma Smaller(m: int, n: int)
    requires 1 <= m < n
    ensures m * (m - 1) < n * (n - 1)
  {
    Less(m - 1, n - 1, m);
    Less(m, n, n - 1);
  }

  lemma Less(a: int, b: int, k: int)
    requires a < b && k > 0
    ensures a * k < b * k
  {
  }

  method PlanFrom(hcas: map<Node, seq<string>>, s: Node, nodes: seq<Node>, rails: nat) returns (plan: seq<Spec>)
    requires Uniform(hcas, [s] + nodes, rails)
    ensures plan == From(hcas, s, nodes, rails)
  {
    plan := [];
    assert nodes[..0] == [];
    assert s in [s] + nodes;
    for i := 0 to |nodes|
      invariant Uniform(hcas, [s] + nodes[..i], rails)
      invariant plan == From(hcas, s, nodes[..i], rails)
    {
      assert nodes[..i + 1][..i] == nodes[..i];
      assert nodes[i] in [s] + nodes;
      assert forall x :: x in [s] + nodes[..i + 1] ==> x in [s] + nodes;
      if nodes[i] != s {
        var pair: seq<Spec> := [];
        for rail := 0 to rails
          invariant |pair| == rail
          invariant forall k :: 0 <= k < rail ==> pair[k] == Spec(s, nodes[i], hcas[s][k], hcas[nodes[i]][k], k)
        {
          pair := pair + [Spec(s, nodes[i], hcas[s][rail], hcas[nodes[i]][rail], rail)];
        }
        assert pair == Pair(hcas, s, nodes[i], rails);
        plan := plan + pair;
      } else {
        assert plan + [] == plan;
      }
    }
    assert nodes[..|nodes|] == nodes;
  }

  /** Ports for a plan, or none when the range above the control port is too small. */
  method AssignPorts(plan: seq<Spec>, controlPort: nat) returns (r: Option<seq<nat>>)
    requires controlPort <= 65535
    ensures r.None? <==> |plan| > 65535 - controlPort + 1
    ensures r.Some? ==>
              && |r.value| == |plan| && Distinct(r.value)
              && forall i :: 0 <= i < |r.value| ==> controlPort <= r.value[i] <= 65535
  {
    if |plan| > 65535 - controlPort + 1 {
      return None;
    }
    var ports: seq<nat> := [];
    for i := 0 to |plan|
      invariant |ports| == i && forall k :: 0 <= k < i ==> ports[k] == controlPort + k
    {
      ports := ports + [controlPort + i];
    }
    r := Some(ports);
  }
}
