/** The Conda collection plan: cohorts, observed mode and findings (`plan_conda_collection`). */
module CondaPlan {
  import opened Wrappers
  import opened Ordering

  type Node = string

  datatype Storage = NodeLocal | Shared

  datatype Scope = LocalScope | SharedScope | UnknownScope

  const SHARED_FILESYSTEMS := {"nfs", "nfs4", "lustre", "gpfs", "beegfs", "ceph", "cephfs", "glusterfs", "cifs", "smb3",
                               "panfs", "wekafs", "fuse.sshfs"}

  const LOCAL_FILESYSTEMS := {"ext2", "ext3", "ext4", "xfs", "btrfs", "zfs", "f2fs", "tmpfs", "ramfs"}

  /** The identity fields after stripping (and lower-casing the file system type); blank ones are absent. */
  datatype Identity = Identity(mountSource: Option<string>, fsType: Option<string>, realpath: Option<string>,
                               fingerprint: Option<string>)

  datatype Observation = Observation(node: Node, prefix: string, prefixExists: bool, pythonExecutable: bool,
                                     identity: Identity, collected: bool, reason: Option<string>,
                                         sharedBackend: Option<bool>)

  datatype Selection = Selection(prefix: string, storage: Storage)

  datatype Status = Pass | Fail | Unknown

  function ScopeOf(o: Observation): Scope {
    if o.sharedBackend.Some? then (if o.sharedBackend.value then SharedScope else LocalScope)
    else if o.identity.fsType.None? then UnknownScope
    else if o.identity.fsType.value in SHARED_FILESYSTEMS then SharedScope
    else if o.identity.fsType.value in LOCAL_FILESYSTEMS then LocalScope
    else UnknownScope
  }

  predicate Complete(i: Identity) {
    i.mountSource.Some? && i.fsType.Some? && i.realpath.Some? && i.fingerprint.Some?
  }

  function Problem(o: Observation, prefix: string): Option<(Status, string)> {
    if !o.collected then Some((Unknown, if o.reason.Some? then o.reason.value
        else "CONDA_STORAGE_COLLECTION_INCOMPLETE"))
    else if o.prefix != prefix then Some((Fail, "CONDA_PREFIX_MISMATCH"))
    else if !o.prefixExists then Some((Fail, "CONDA_PREFIX_UNREACHABLE"))
    else if !o.pythonExecutable then Some((Fail, "CONDA_PYTHON_NOT_EXECUTABLE"))
    else None
  }

  predicate Declares(s: Storage, scope: Scope) {
    (s == Shared && scope == SharedScope) || (s == NodeLocal && scope == LocalScope)
  }

  // ---------------------------------------------------------------- one node

  /** The payload behind a cohort key; `owner` is present when the key is forced to the node. */
  datatype Payload =
    | MissingPayload(owner: Node)
    | ProblemPayload(scope: Scope, identity: Identity, owner: Node, problem: string)
    | UsablePayload(scope: Scope, identity: Identity, holder: Option<Node>)

  datatype Classified = Classified(payload: Payload, status: Status, reason: string, usable: bool)

  type Observed = map<Node, Observation>

  function Classify(sel: Selection, obs: Observed, node: Node): Classified {
    if node !in obs then Classified(MissingPayload(node), Unknown, "CONDA_STORAGE_OBSERVATION_MISSING", false) else
      var o := obs[node];
      match Problem(o, sel.prefix)
      case Some(p) => Classified(ProblemPayload(ScopeOf(o), o.identity, node, p.1), p.0, p.1, false)
      case None =>
        var scope, complete := ScopeOf(o), Complete(o.identity);
        var payload := UsablePayload(scope, o.identity, if scope != SharedScope || !complete then Some(node) else None);
        if !complete || scope == UnknownScope then
          Classified(payload, Unknown, if sel.storage == Shared then "SHARED_IDENTITY_UNKNOWN"
              else "NODE_LOCAL_IDENTITY_UNKNOWN", true)
        else if !Declares(sel.storage, scope) then Classified(payload, Fail, "CONDA_STORAGE_MODE_MISMATCH", true)
        else Classified(payload, Pass, if scope == SharedScope then "SHARED_IDENTITY_MATCH"
            else "NODE_LOCAL_IDENTITY_CONFIRMED", true)
  }

  /** The node was reached, and the environment it was asked for is there and runs. */
  predicate Usable(o: Observation, prefix: string) {
    o.collected && o.prefix == prefix && o.prefixExists && o.pythonExecutable
  }

  ghost predicate Known(i: Identity) {
    exists m, f, r, p :: i == Identity(Some(m), Some(f), Some(r), Some(p))
  }

  /** What the node says of its storage, else what the type of its file system says. */
  predicate OnShared(o: Observation) {
    o.sharedBackend == Some(true)
    || (o.sharedBackend == None && exists f :: f in SHARED_FILESYSTEMS && o.identity.fsType == Some(f))
  }

  predicate OnLocal(o: Observation) {
    o.sharedBackend == Some(false)
    || (o.sharedBackend == None && exists f :: f in LOCAL_FILESYSTEMS && o.identity.fsType == Some(f))
  }

  /** Usable evidence of shared storage, with a complete identity. */
  ghost predicate ConfirmedShared(sel: Selection, obs: Observed, node: Node) {
    node in obs && Usable(obs[node], sel.prefix) && OnShared(obs[node]) && Known(obs[node].identity)
  }

  ghost predicate ConfirmedLocal(sel: Selection, obs: Observed, node: Node) {
    node in obs && Usable(obs[node], sel.prefix) && OnLocal(obs[node]) && Known(obs[node].identity)
  }

  /** The functions of the planner decide this. */
  lemma ConfirmedIs(sel: Selection, obs: Observed, node: Node)
    ensures ConfirmedShared(sel, obs, node) <==> FullyObserved(sel, obs, node) && ScopeOf(obs[node]) == SharedScope
    ensures ConfirmedLocal(sel, obs, node) <==> FullyObserved(sel, obs, node) && ScopeOf(obs[node]) == LocalScope
  {
    if node in obs {
      UsableIs(obs[node], sel.prefix);
      KnownIs(obs[node].identity);
      ScopeIs(obs[node]);
    }
  }

  lemma UsableIs(o: Observation, prefix: string)
    ensures Usable(o, prefix) <==> Problem(o, prefix).None?
  {
  }

  lemma KnownIs(i: Identity)
    ensures Known(i) <==> Complete(i)
  {
    if Complete(i) {
      assert i == Identity(Some(i.mountSource.value), Some(i.fsType.value), Some(i.realpath.value),
                           Some(i.fingerprint.value));
    }
  }

  lemma ScopeIs(o: Observation)
    ensures ScopeOf(o) == SharedScope <==> OnShared(o)
    ensures ScopeOf(o) == LocalScope <==> OnLocal(o)
  {
    KindsApart();
  }

  /** No type of file system is both shared and local. */
  lemma KindsApart()
    ensures SHARED_FILESYSTEMS !! LOCAL_FILESYSTEMS
  {
  }

  /** Two nodes get the same key iff they are one node or are confirmed on the same shared storage. */
  lemma SamePayload(sel: Selection, obs: Observed, a: Node, b: Node)
    requires forall n :: n in obs ==> obs[n].node == n
    ensures Classify(sel, obs, a).payload == Classify(sel, obs, b).payload <==>
            a == b || (ConfirmedShared(sel, obs, a) && ConfirmedShared(sel, obs, b)
                && obs[a].identity == obs[b].identity)
  {
    ConfirmedIs(sel, obs, a);
    ConfirmedIs(sel, obs, b);
    hide ScopeOf, Problem, Complete, ConfirmedShared;
  }

  // ---------------------------------------------------------------- cohorts

  datatype Cohort = Cohort(payload: Payload, nodes: seq<Node>, representative: Option<Node>, status: Status,
      reason: string)

  /** A cohort lists, in order, exactly the nodes whose key it has, with their common verdict. */
  ghost predicate CohortIs(c: Cohort, sel: Selection, obs: Observed, nodes: seq<Node>) {
    && c.nodes != []
    && (forall n :: n in c.nodes <==> n in nodes && Classify(sel, obs, n).payload == c.payload)
    && Sorted(TextLeq, c.nodes) && Distinct(c.nodes)
    && (forall n :: n in c.nodes ==>
          var k := Classify(sel, obs, n);
          c.status == k.status && c.reason == k.reason
              && c.representative == (if k.usable then Some(c.nodes[0]) else None))
  }

  ghost predicate Cohorts(cohorts: seq<Cohort>, sel: Selection, obs: Observed, nodes: seq<Node>) {
    && (forall i, j :: 0 <= i < j < |cohorts| ==> cohorts[i].payload != cohorts[j].payload)
    && (forall c :: c in cohorts ==> CohortIs(c, sel, obs, nodes))
    && (forall n :: n in nodes ==> HasCohort(cohorts, Classify(sel, obs, n).payload))
  }

  /** The cohorts are listed by their first nodes, as `cohorts.sort` leaves them. */
  ghost predicate InOrder(cohorts: seq<Cohort>) {
    (forall c :: c in cohorts ==> c.nodes != [])
    && forall i, j :: 0 <= i < j < |cohorts| ==> TextLeq(cohorts[i].nodes[0], cohorts[j].nodes[0])
  }

  ghost predicate HasCohort(cohorts: seq<Cohort>, payload: Payload) {
    exists i :: 0 <= i < |cohorts| && cohorts[i].payload == payload
  }

  method FindCohort(cohorts: seq<Cohort>, payload: Payload) returns (i: nat)
    ensures i <= |cohorts| && (i < |cohorts| ==> cohorts[i].payload == payload)
    ensures forall k :: 0 <= k < i ==> cohorts[k].payload != payload
  {
    i := 0;
    while i < |cohorts| && cohorts[i].payload != payload
      invariant i <= |cohorts| && forall k :: 0 <= k < i ==> cohorts[k].payload != payload
    {
      i := i + 1;
    }
  }

  // ---------------------------------------------------------------- mode and findings

  datatype Mode = ModeUnknown | ModeShared | ModeNodeLocal | ModeSplit

  datatype Finding = Finding(severity: Status, reason: string, nodes: seq<Node>)

  function PayloadScope(p: Payload): Scope {
    match p
    case MissingPayload(_) => UnknownScope
    case ProblemPayload(scope, _, _, _) => scope
    case UsablePayload(scope, _, _) => scope
  }

  /** `_observed_mode`; `allObserved` says that the completely observed nodes are the expected ones. */
  function ObservedMode(cohorts: seq<Cohort>, allObserved: bool): Mode {
    if !allObserved then ModeUnknown
    else if !(forall c :: c in cohorts ==> c.status != Unknown && c.representative.Some?) || cohorts == []
        then ModeUnknown
    else if |cohorts| == 1 && PayloadScope(cohorts[0].payload) == SharedScope then ModeShared
    else if forall c :: c in cohorts ==> PayloadScope(c.payload) == LocalScope && |c.nodes| == 1 then ModeNodeLocal
    else ModeSplit
  }

  /** Nodes with a usable observation and a complete identity. */
  predicate FullyObserved(sel: Selection, obs: Observed, n: Node) {
    n in obs && Problem(obs[n], sel.prefix).None? && Complete(obs[n].identity)
  }

  function NodeFindings(sel: Selection, obs: Observed, nodes: seq<Node>): seq<Finding> {
    if nodes == [] then [] else
      var n := |nodes| - 1;
      var k := Classify(sel, obs, nodes[n]);
      NodeFindings(sel, obs, nodes[..n]) + (if k.status != Pass then [Finding(k.status, k.reason, [nodes[n]])] else [])
  }

  predicate Reported(findings: seq<Finding>, reason: string) {
    exists i :: 0 <= i < |findings| && findings[i].reason == reason
  }

  function FinalFindings(sel: Selection, nodes: seq<Node>, findings: seq<Finding>, mode: Mode): seq<Finding> {
    if sel.storage == Shared && mode == ModeSplit && !Reported(findings, "SHARED_ENV_SPLIT")
    then findings + [Finding(Fail, "SHARED_ENV_SPLIT", nodes)]
    else if (mode == ModeNodeLocal || mode == ModeShared) && mode != Declared(sel.storage)
            && !Reported(findings, "CONDA_STORAGE_MODE_MISMATCH")
    then findings + [Finding(Fail, "CONDA_STORAGE_MODE_MISMATCH", nodes)]
    else findings
  }

  function Declared(s: Storage): Mode {
    if s == Shared then ModeShared else ModeNodeLocal
  }

  datatype Plan = Plan(nodes: seq<Node>, cohorts: seq<Cohort>, probes: seq<Node>, mode: Mode, findings: seq<Finding>)

  /** What the planner's result says about its inputs. */
  ghost predicate PlanIs(p: Plan, sel: Selection, obs: Observed) {
    && Cohorts(p.cohorts, sel, obs, p.nodes) && InOrder(p.cohorts)
    && ProbesAre(p.probes, sel, obs, p.nodes)
    && p.mode == ObservedMode(p.cohorts, forall n :: n in p.nodes ==> FullyObserved(sel, obs, n))
    && p.findings == FinalFindings(sel, p.nodes, NodeFindings(sel, obs, p.nodes), p.mode)
  }

  ghost predicate GoodInputs(nodes: seq<Node>, obs: Observed) {
    && nodes != [] && Sorted(TextLeq, nodes) && Distinct(nodes)
    && (forall n :: n in obs ==> n in nodes && obs[n].node == n)
  }

  // ---------------------------------------------------------------- adding a node

  lemma Append(nodes: seq<Node>, n: Node)
    requires Sorted(TextLeq, nodes) && Distinct(nodes) && n !in nodes && forall m :: m in nodes ==> TextLeq(m, n)
    ensures Sorted(TextLeq, nodes + [n]) && Distinct(nodes + [n])
  {
    hide TextLeq;
  }

  lemma Joins(c: Cohort, sel: Selection, obs: Observed, nodes: seq<Node>, n: Node)
    requires CohortIs(c, sel, obs, nodes) && n !in nodes && forall m :: m in nodes ==> TextLeq(m, n)
    requires forall m :: m in obs ==> obs[m].node == m
    ensures Classify(sel, obs, n).payload != c.payload ==> CohortIs(c, sel, obs, nodes + [n])
    ensures Classify(sel, obs, n).payload == c.payload ==> CohortIs(c.(nodes := c.nodes + [n]), sel, obs, nodes + [n])
  {
    hide Classify, TextLeq;
    if Classify(sel, obs, n).payload == c.payload {
      Append(c.nodes, n);
      var d := c.(nodes := c.nodes + [n]);
      assert d.nodes[0] == c.nodes[0];
      SameVerdict(sel, obs, c.nodes[0], n);
    }
  }

  lemma SameVerdict(sel: Selection, obs: Observed, a: Node, b: Node)
    requires forall m :: m in obs ==> obs[m].node == m
    requires Classify(sel, obs, a).payload == Classify(sel, obs, b).payload
    ensures Classify(sel, obs, a).(payload := Classify(sel, obs, b).payload) == Classify(sel, obs, b)
  {
    hide ScopeOf, Complete;
  }

  lemma KeepCohort(cohorts: seq<Cohort>, sel: Selection, obs: Observed, nodes: seq<Node>, n: Node, i: nat)
    requires Cohorts(cohorts, sel, obs, nodes) && i < |cohorts| && cohorts[i].payload == Classify(sel, obs, n).payload
    requires n !in nodes && (forall m :: m in nodes ==> TextLeq(m, n)) && forall m :: m in obs ==> obs[m].node == m
    ensures Cohorts(cohorts[i := cohorts[i].(nodes := cohorts[i].nodes + [n])], sel, obs, nodes + [n])
  {
    hide Classify, TextLeq, CohortIs;
    var next := cohorts[i := cohorts[i].(nodes := cohorts[i].nodes + [n])];
    forall k | 0 <= k < |cohorts| ensures CohortIs(next[k], sel, obs, nodes + [n]) {
      assert cohorts[k] in cohorts;
      Joins(cohorts[k], sel, obs, nodes, n);
    }
    forall m | m in nodes + [n] ensures HasCohort(next, Classify(sel, obs, m).payload) {
      if m in nodes {
        var k :| 0 <= k < |cohorts| && cohorts[k].payload == Classify(sel, obs, m).payload;
        assert next[k].payload == cohorts[k].payload;
      } else {
        assert next[i].payload == Classify(sel, obs, m).payload;
      }
    }
  }

  function NewCohort(sel: Selection, obs: Observed, n: Node): Cohort {
    var k := Classify(sel, obs, n);
    Cohort(k.payload, [n], if k.usable then Some(n) else None, k.status, k.reason)
  }

  lemma AddCohort(cohorts: seq<Cohort>, sel: Selection, obs: Observed, nodes: seq<Node>, n: Node)
    requires Cohorts(cohorts, sel, obs, nodes)
    requires forall k :: 0 <= k < |cohorts| ==> cohorts[k].payload != Classify(sel, obs, n).payload
    requires n !in nodes && (forall m :: m in nodes ==> TextLeq(m, n)) && forall m :: m in obs ==> obs[m].node == m
    ensures Cohorts(cohorts + [NewCohort(sel, obs, n)], sel, obs, nodes + [n])
  {
    hide Classify, TextLeq;
    var next := cohorts + [NewCohort(sel, obs, n)];
    forall m | m in nodes ensures Classify(sel, obs, m).payload != Classify(sel, obs, n).payload {
      assert HasCohort(cohorts, Classify(sel, obs, m).payload);
    }
    assert CohortIs(NewCohort(sel, obs, n), sel, obs, nodes + [n]);
    hide CohortIs;
    forall k | 0 <= k < |cohorts| ensures CohortIs(next[k], sel, obs, nodes + [n]) {
      assert cohorts[k] in cohorts;
      Joins(cohorts[k], sel, obs, nodes, n);
    }
    forall m | m in nodes + [n] ensures HasCohort(next, Classify(sel, obs, m).payload) {
      if m in nodes {
        var k :| 0 <= k < |cohorts| && cohorts[k].payload == Classify(sel, obs, m).payload;
        assert next[k].payload == cohorts[k].payload;
      } else {
        assert next[|cohorts|].payload == Classify(sel, obs, m).payload;
      }
    }
  }

  lemma KeepOrder(cohorts: seq<Cohort>, n: Node, i: nat)
    requires InOrder(cohorts) && i < |cohorts|
    ensures InOrder(cohorts[i := cohorts[i].(nodes := cohorts[i].nodes + [n])])
  {
    hide TextLeq;
    var next := cohorts[i := cohorts[i].(nodes := cohorts[i].nodes + [n])];
    forall k | 0 <= k < |cohorts| ensures next[k].nodes != [] && next[k].nodes[0] == cohorts[k].nodes[0] {
      assert cohorts[k] in cohorts;
    }
  }

  lemma AddOrder(cohorts: seq<Cohort>, sel: Selection, obs: Observed, nodes: seq<Node>, n: Node)
    requires InOrder(cohorts) && Cohorts(cohorts, sel, obs, nodes) && forall m :: m in nodes ==> TextLeq(m, n)
    ensures InOrder(cohorts + [NewCohort(sel, obs, n)])
  {
    hide TextLeq, Classify;
    forall k | 0 <= k < |cohorts| ensures cohorts[k].nodes[0] in nodes {
      assert cohorts[k] in cohorts && CohortIs(cohorts[k], sel, obs, nodes);
      assert cohorts[k].nodes[0] in cohorts[k].nodes;
    }
  }

  // ---------------------------------------------------------------- the planner

  datatype PlanError = NoNodes | DuplicateNodes | OutOfScope | DuplicateObservation

  /** The observations by node. */
  ghost predicate Indexes(obs: Observed, observations: seq<Observation>) {
    && (forall n :: n in obs ==> obs[n] in observations && obs[n].node == n)
    && (forall o :: o in observations ==> o.node in obs && obs[o.node] == o)
  }

  ghost predicate OncePerNode(observations: seq<Observation>) {
    forall i, j :: 0 <= i < j < |observations| ==> observations[i].node != observations[j].node
  }

  lemma IndexOne(obs: Observed, observations: seq<Observation>, i: nat)
    requires i < |observations| && Indexes(obs, observations[..i]) && OncePerNode(observations[..i])
    ensures observations[i].node in obs ==> !OncePerNode(observations)
    ensures observations[i].node !in obs ==>
              Indexes(obs[observations[i].node := observations[i]], observations[..i + 1])
                  && OncePerNode(observations[..i + 1])
  {
    var o, seen := observations[i], observations[..i];
    assert observations[..i + 1] == seen + [o];
    if o.node in obs {
      assert obs[o.node] in seen;
      var k :| 0 <= k < i && seen[k] == obs[o.node];
      assert observations[k].node == o.node;
    } else {
      forall k | 0 <= k < i ensures seen[k].node != o.node { assert seen[k] in seen; }
    }
  }

  /** Observations by node; every observation in scope and no node observed twice. */
  method CollectObservations(nodes: seq<Node>, observations: seq<Observation>) returns (r: Result<Observed, PlanError>)
    ensures r.Ok? <==> (forall o :: o in observations ==> o.node in nodes) && OncePerNode(observations)
    ensures r.Ok? ==> Indexes(r.value, observations) && forall n :: n in r.value ==> n in nodes
  {
    hide Indexes, OncePerNode;
    var byNode: Observed := map[];
    NoObservations();
    assert observations[..0] == [];
    for i := 0 to |observations|
      invariant Indexes(byNode, observations[..i]) && OncePerNode(observations[..i])
      invariant forall o :: o in observations[..i] ==> o.node in nodes
      invariant forall n :: n in byNode ==> n in nodes
    {
      var o := observations[i];
      IndexOne(byNode, observations, i);
      assert o in observations;
      if o.node !in nodes {
        return Err(OutOfScope);
      }
      if o.node in byNode {
        return Err(DuplicateObservation);
      }
      assert observations[..i + 1] == observations[..i] + [o];
      byNode := byNode[o.node := o];
    }
    assert observations[..|observations|] == observations;
    r := Ok(byNode);
  }

  lemma NoObservations()
    ensures Indexes(map[], []) && OncePerNode([])
  {
  }

  ghost predicate ProbesAre(probes: seq<Node>, sel: Selection, obs: Observed, nodes: seq<Node>) {
    (forall n :: n in probes <==> n in nodes && Classify(sel, obs, n).usable)
    && Distinct(probes) && Sorted(TextLeq, probes)
  }

  lemma NextNode(sel: Selection, obs: Observed, nodes: seq<Node>, i: nat)
    requires GoodInputs(nodes, obs) && i < |nodes|
    ensures nodes[..i + 1] == nodes[..i] + [nodes[i]]
    ensures nodes[i] !in nodes[..i] && forall m :: m in nodes[..i] ==> TextLeq(m, nodes[i])
    ensures NodeFindings(sel, obs, nodes[..i + 1]) ==
            var k := Classify(sel, obs, nodes[i]);
            NodeFindings(sel, obs, nodes[..i])
                + (if k.status != Pass then [Finding(k.status, k.reason, [nodes[i]])] else [])
  {
    hide Classify, TextLeq;
    assert nodes[..i + 1] == nodes[..i] + [nodes[i]];
    assert nodes[..i + 1][..i] == nodes[..i];
  }

  lemma NextProbe(sel: Selection, obs: Observed, nodes: seq<Node>, n: Node, probes: seq<Node>)
    requires ProbesAre(probes, sel, obs, nodes) && n !in nodes && forall m :: m in nodes ==> TextLeq(m, n)
    ensures ProbesAre(if Classify(sel, obs, n).usable then probes + [n] else probes, sel, obs, nodes + [n])
  {
    hide Classify, TextLeq, Sorted, Distinct;
    if Classify(sel, obs, n).usable {
      Append(probes, n);
    }
  }

  /** `setdefault` and append: the cohort of the node's key grows, or a new one appears. */
  method Enter(cohorts: seq<Cohort>, sel: Selection, obs: Observed, ghost nodes: seq<Node>, n: Node)
      returns (next: seq<Cohort>)
    requires Cohorts(cohorts, sel, obs, nodes) && InOrder(cohorts)
    requires n !in nodes && (forall m :: m in nodes ==> TextLeq(m, n)) && forall m :: m in obs ==> obs[m].node == m
    ensures Cohorts(next, sel, obs, nodes + [n]) && InOrder(next)
  {
    hide Classify, Cohorts, InOrder, TextLeq;
    var at := FindCohort(cohorts, Classify(sel, obs, n).payload);
    if at < |cohorts| {
      KeepCohort(cohorts, sel, obs, nodes, n, at);
      KeepOrder(cohorts, n, at);
      next := cohorts[at := cohorts[at].(nodes := cohorts[at].nodes + [n])];
    } else {
      AddCohort(cohorts, sel, obs, nodes, n);
      AddOrder(cohorts, sel, obs, nodes, n);
      next := cohorts + [NewCohort(sel, obs, n)];
    }
  }

  /** The loop over the expected nodes. */
  method GroupNodes(sel: Selection, obs: Observed, nodes: seq<Node>)
      returns (cohorts: seq<Cohort>, probes: seq<Node>, findings: seq<Finding>)
    requires GoodInputs(nodes, obs)
    ensures Cohorts(cohorts, sel, obs, nodes) && InOrder(cohorts)
    ensures ProbesAre(probes, sel, obs, nodes)
    ensures findings == NodeFindings(sel, obs, nodes)
  {
    cohorts, probes, findings := [], [], [];
    NoCohorts(sel, obs);
    assert nodes[..0] == [];
    hide Classify, Cohorts, InOrder, TextLeq, ProbesAre, NodeFindings;
    for i := 0 to |nodes|
      invariant Cohorts(cohorts, sel, obs, nodes[..i]) && InOrder(cohorts)
      invariant ProbesAre(probes, sel, obs, nodes[..i])
      invariant findings == NodeFindings(sel, obs, nodes[..i])
    {
      var n := nodes[i];
      NextNode(sel, obs, nodes, i);
      NextProbe(sel, obs, nodes[..i], n, probes);
      var k := Classify(sel, obs, n);
      cohorts := Enter(cohorts, sel, obs, nodes[..i], n);
      if k.usable {
        probes := probes + [n];
      }
      if k.status != Pass {
        findings := findings + [Finding(k.status, k.reason, [n])];
      }
    }
    assert nodes[..|nodes|] == nodes;
  }

  lemma NoCohorts(sel: Selection, obs: Observed)
    ensures Cohorts([], sel, obs, [])
  {
  }

  /** The expected nodes in order, refused when there are none or one is named twice. */
  method ArrangeNodes(expected: seq<Node>) returns (r: Result<seq<Node>, PlanError>)
    ensures r.Ok? <==> expected != [] && Distinct(expected)
    ensures r.Ok? ==>
              r.value != [] && Sorted(TextLeq, r.value) && Distinct(r.value) &&
              forall n :: n in r.value <==> n in expected
  {
    hide TextLeq, Sort;
    if expected == [] {
      return Err(NoNodes);
    }
    var nodes := Sort(TextLeq, expected);
    TextOrder();
    SortSorted(TextLeq, expected);
    SortMultiset(TextLeq, expected);
    SortKeepsElements(TextLeq, expected);
    if exists i, j :: 0 <= i < j < |nodes| && nodes[i] == nodes[j] {
      if Distinct(expected) { SameCountsDistinct(expected, nodes); }
      return Err(DuplicateNodes);
    }
    SameCountsDistinct(nodes, expected);
    assert expected[0] in nodes;
    r := Ok(nodes);
  }

  /** The plan for checked inputs. */
  method PlanFor(sel: Selection, obs: Observed, nodes: seq<Node>) returns (p: Plan)
    requires GoodInputs(nodes, obs)
    ensures p.nodes == nodes && PlanIs(p, sel, obs)
  {
    hide TextLeq, Cohorts, ObservedMode, FinalFindings, Classify, NodeFindings, FullyObserved, ProbesAre, InOrder;
    var cohorts, probes, findings := GroupNodes(sel, obs, nodes);
    var mode := ObservedMode(cohorts, forall n :: n in nodes ==> FullyObserved(sel, obs, n));
    p := Plan(nodes, cohorts, probes, mode, FinalFindings(sel, nodes, findings, mode));
  }

  method PlanCollection(sel: Selection, expected: seq<Node>, observations: seq<Observation>)
      returns (r: Result<Plan, PlanError>)
    ensures r.Ok? <==>
              expected != [] && Distinct(expected) && (forall o :: o in observations ==> o.node in expected)
                  && OncePerNode(observations)
    ensures r.Ok? ==>
              && (forall n :: n in r.value.nodes <==> n in expected)
              && exists obs :: Indexes(obs, observations) && GoodInputs(r.value.nodes, obs) && PlanIs(r.value, sel, obs)
  {
    hide TextLeq, PlanIs, Classify, Distinct, OncePerNode;
    var nodes := ArrangeNodes(expected);
    if nodes.Err? {
      return Err(nodes.error);
    }
    var collected := CollectObservations(nodes.value, observations);
    if collected.Err? {
      return Err(collected.error);
    }
    var plan := PlanFor(sel, collected.value, nodes.value);
    r := Ok(plan);
  }

  // ---------------------------------------------------------------- soundness and completeness

  lemma {:induction false} NoNodeFindings(sel: Selection, obs: Observed, nodes: seq<Node>)
    ensures NodeFindings(sel, obs, nodes) == [] <==> forall n :: n in nodes ==> Classify(sel, obs, n).status == Pass
  {
    hide Classify;
    if nodes != [] {
      var k := |nodes| - 1;
      NoNodeFindings(sel, obs, nodes[..k]);
      assert nodes == nodes[..k] + [nodes[k]];
    }
  }

  lemma PassMeans(sel: Selection, obs: Observed, n: Node)
    ensures Classify(sel, obs, n).status == Pass <==>
            FullyObserved(sel, obs, n) && Declares(sel.storage, ScopeOf(obs[n]))
    ensures FullyObserved(sel, obs, n) ==>
              Classify(sel, obs, n).usable
              && Classify(sel, obs, n).payload == UsablePayload(ScopeOf(obs[n]), obs[n].identity,
                                                               if ScopeOf(obs[n]) == SharedScope then None else Some(n))
  {
    hide ScopeOf;
  }

  /** The cohort of a node. */
  lemma CohortOf(p: Plan, sel: Selection, obs: Observed, n: Node) returns (c: Cohort)
    requires PlanIs(p, sel, obs) && n in p.nodes
    ensures c in p.cohorts && n in c.nodes && CohortIs(c, sel, obs, p.nodes)
            && c.payload == Classify(sel, obs, n).payload
  {
    hide Classify, TextLeq;
    assert HasCohort(p.cohorts, Classify(sel, obs, n).payload);
    var i :| 0 <= i < |p.cohorts| && p.cohorts[i].payload == Classify(sel, obs, n).payload;
    c := p.cohorts[i];
    assert c in p.cohorts;
  }

  lemma AllPassCohort(p: Plan, sel: Selection, obs: Observed, c: Cohort)
    requires CohortIs(c, sel, obs, p.nodes)
    requires forall n :: n in p.nodes ==> Classify(sel, obs, n).status == Pass
    ensures c.status == Pass && c.representative.Some? && Declares(sel.storage, PayloadScope(c.payload))
    ensures sel.storage == NodeLocal ==> |c.nodes| == 1
  {
    hide InOrder, Classify, TextLeq, ScopeOf, FullyObserved;
    assert c.nodes[0] in c.nodes;
    PassMeans(sel, obs, c.nodes[0]);
    if sel.storage == NodeLocal && |c.nodes| > 1 {
      assert c.nodes[1] in c.nodes;
      PassMeans(sel, obs, c.nodes[1]);
    }
  }

  lemma AllPassMode(p: Plan, sel: Selection, obs: Observed)
    requires GoodInputs(p.nodes, obs) && PlanIs(p, sel, obs)
    requires forall n :: n in p.nodes ==> Classify(sel, obs, n).status == Pass
    ensures p.mode == Declared(sel.storage) || (sel.storage == Shared && p.mode == ModeSplit)
  {
    hide InOrder, Classify, TextLeq, ScopeOf, FinalFindings, CohortIs, FullyObserved, ProbesAre;
    forall n | n in p.nodes ensures FullyObserved(sel, obs, n) { PassMeans(sel, obs, n); }
    var c0 := CohortOf(p, sel, obs, p.nodes[0]);
    forall c | c in p.cohorts
      ensures c.status == Pass && c.representative.Some? && Declares(sel.storage, PayloadScope(c.payload))
      ensures sel.storage == NodeLocal ==> |c.nodes| == 1
    {
      AllPassCohort(p, sel, obs, c);
    }
    assert p.cohorts[0] in p.cohorts;
  }

  lemma ModeMeansPass(p: Plan, sel: Selection, obs: Observed, n: Node)
    requires GoodInputs(p.nodes, obs) && PlanIs(p, sel, obs) && n in p.nodes && p.mode == Declared(sel.storage)
    ensures Classify(sel, obs, n).status == Pass
  {
    hide InOrder, Classify, TextLeq, ScopeOf, FinalFindings, FullyObserved, Cohorts, CohortIs, ProbesAre;
    var c := CohortOf(p, sel, obs, n);
    PassMeans(sel, obs, n);
    ModeScope(p.cohorts, c, forall m :: m in p.nodes ==> FullyObserved(sel, obs, m));
  }

  /** With every node observed, a mode other than mixed fixes the scope of every cohort. */
  lemma ModeScope(cohorts: seq<Cohort>, c: Cohort, allObserved: bool)
    requires c in cohorts
    ensures ObservedMode(cohorts, allObserved) == ModeShared ==> allObserved && PayloadScope(c.payload) == SharedScope
    ensures ObservedMode(cohorts, allObserved) == ModeNodeLocal ==> allObserved && PayloadScope(c.payload) == LocalScope
  {
  }

  /** Main result: there is no finding if and only if the observed mode is the declared mode. */
  lemma VerdictExact(p: Plan, sel: Selection, obs: Observed)
    requires GoodInputs(p.nodes, obs) && PlanIs(p, sel, obs)
    ensures p.findings == [] <==> p.mode == Declared(sel.storage)
  {
    hide InOrder, Classify, TextLeq, ScopeOf, Cohorts, ObservedMode, FullyObserved, NodeFindings;
    NoNodeFindings(sel, obs, p.nodes);
    if p.findings == [] {
      AllPassMode(p, sel, obs);
    }
    if p.mode == Declared(sel.storage) {
      forall n | n in p.nodes ensures Classify(sel, obs, n).status == Pass { ModeMeansPass(p, sel, obs, n); }
    }
  }

  /** Main result: "shared" means every expected node is confirmed on one identical shared storage. */
  lemma SharedMeans(p: Plan, sel: Selection, obs: Observed, a: Node, b: Node)
    requires GoodInputs(p.nodes, obs) && PlanIs(p, sel, obs) && p.mode == ModeShared && a in p.nodes && b in p.nodes
    ensures ConfirmedShared(sel, obs, a) && ConfirmedShared(sel, obs, b) && obs[a].identity == obs[b].identity
  {
    hide InOrder, Classify, TextLeq, ScopeOf, FinalFindings, Problem, ConfirmedShared, Complete;
    var c := CohortOf(p, sel, obs, a);
    var d := CohortOf(p, sel, obs, b);
    assert FullyObserved(sel, obs, a) && FullyObserved(sel, obs, b);
    ConfirmedIs(sel, obs, a);
    ConfirmedIs(sel, obs, b);
    PassMeans(sel, obs, a);
    PassMeans(sel, obs, b);
    assert c == d;
  }

  /** Main result: "node-local" means every node is alone in a confirmed local cohort. */
  lemma NodeLocalMeans(p: Plan, sel: Selection, obs: Observed, n: Node)
    requires GoodInputs(p.nodes, obs) && PlanIs(p, sel, obs) && p.mode == ModeNodeLocal && n in p.nodes
    ensures ConfirmedLocal(sel, obs, n)
    ensures exists c :: c in p.cohorts && c.nodes == [n] && c.representative == Some(n)
  {
    hide InOrder, Classify, TextLeq, ScopeOf, FinalFindings, Problem, ConfirmedLocal, Complete;
    var c := CohortOf(p, sel, obs, n);
    assert FullyObserved(sel, obs, n);
    ConfirmedIs(sel, obs, n);
    PassMeans(sel, obs, n);
    assert |c.nodes| == 1 && c.nodes == [n];
  }

  ghost predicate Confirmed(sel: Selection, obs: Observed, n: Node) {
    ConfirmedShared(sel, obs, n) || ConfirmedLocal(sel, obs, n)
  }

  lemma ConfirmedMeans(sel: Selection, obs: Observed, n: Node)
    ensures Confirmed(sel, obs, n) <==> FullyObserved(sel, obs, n) && Classify(sel, obs, n).status != Unknown
    ensures ConfirmedShared(sel, obs, n) <==> Confirmed(sel, obs, n) && ScopeOf(obs[n]) == SharedScope
    ensures ConfirmedLocal(sel, obs, n) <==> Confirmed(sel, obs, n) && ScopeOf(obs[n]) == LocalScope
    ensures Confirmed(sel, obs, n) ==>
              Classify(sel, obs, n).usable && PayloadScope(Classify(sel, obs, n).payload) == ScopeOf(obs[n])
  {
    ConfirmedIs(sel, obs, n);
    hide ScopeOf, ConfirmedShared, ConfirmedLocal;
  }

  /** The cohorts' verdicts are those of their nodes. */
  lemma CohortsConfirmed(p: Plan, sel: Selection, obs: Observed, c: Cohort)
    requires CohortIs(c, sel, obs, p.nodes) && forall n :: n in p.nodes ==> Confirmed(sel, obs, n)
    ensures c.status != Unknown && c.representative.Some? && c.nodes[0] in p.nodes
    ensures PayloadScope(c.payload) == ScopeOf(obs[c.nodes[0]])
  {
    hide Classify, ScopeOf, TextLeq, Confirmed, FullyObserved;
    assert c.nodes[0] in c.nodes;
    ConfirmedMeans(sel, obs, c.nodes[0]);
  }

  lemma UnconfirmedMode(p: Plan, sel: Selection, obs: Observed, n: Node)
    requires GoodInputs(p.nodes, obs) && PlanIs(p, sel, obs) && n in p.nodes && !Confirmed(sel, obs, n)
    ensures p.mode == ModeUnknown
  {
    hide InOrder, Classify, TextLeq, ScopeOf, FinalFindings, FullyObserved, Confirmed, ProbesAre;
    ConfirmedMeans(sel, obs, n);
    var c := CohortOf(p, sel, obs, n);
  }

  lemma ConfirmedMode(p: Plan, sel: Selection, obs: Observed)
    requires GoodInputs(p.nodes, obs) && PlanIs(p, sel, obs) && forall n :: n in p.nodes ==> Confirmed(sel, obs, n)
    ensures p.mode != ModeUnknown && p.cohorts != []
    ensures p.mode == ModeShared <==> |p.cohorts| == 1 && PayloadScope(p.cohorts[0].payload) == SharedScope
    ensures p.mode == ModeNodeLocal <==>
              forall c :: c in p.cohorts ==> PayloadScope(c.payload) == LocalScope && |c.nodes| == 1
  {
    hide InOrder, Classify, TextLeq, ScopeOf, FinalFindings, FullyObserved, Confirmed, ProbesAre, CohortIs;
    forall n | n in p.nodes ensures FullyObserved(sel, obs, n) { ConfirmedMeans(sel, obs, n); }
    forall c | c in p.cohorts ensures c.status != Unknown && c.representative.Some? {
      CohortsConfirmed(p, sel, obs, c);
    }
    var c := CohortOf(p, sel, obs, p.nodes[0]);
    assert c in p.cohorts && p.cohorts[0] in p.cohorts;
  }

  /** Every node confirmed on one identical shared storage. */
  ghost predicate AllShared(sel: Selection, obs: Observed, nodes: seq<Node>) {
    forall a, b :: a in nodes && b in nodes ==>
      ConfirmedShared(sel, obs, a) && ConfirmedShared(sel, obs, b) && obs[a].identity == obs[b].identity
  }

  ghost predicate AllLocal(sel: Selection, obs: Observed, nodes: seq<Node>) {
    forall n :: n in nodes ==> ConfirmedLocal(sel, obs, n)
  }

  lemma SharedModeHolds(p: Plan, sel: Selection, obs: Observed)
    requires GoodInputs(p.nodes, obs) && PlanIs(p, sel, obs) && AllShared(sel, obs, p.nodes)
    ensures p.mode == ModeShared
  {
    hide Classify, TextLeq, ScopeOf, FinalFindings, FullyObserved, ProbesAre, ObservedMode, InOrder;
    hide ConfirmedShared, ConfirmedLocal;
    forall n | n in p.nodes ensures Confirmed(sel, obs, n) {}
    ConfirmedMode(p, sel, obs);
    var c := p.cohorts[0];
    assert c in p.cohorts;
    CohortsConfirmed(p, sel, obs, c);
    ConfirmedMeans(sel, obs, c.nodes[0]);
    if |p.cohorts| > 1 {
      var d := p.cohorts[1];
      assert d in p.cohorts;
      CohortsConfirmed(p, sel, obs, d);
      assert c.nodes[0] in c.nodes && d.nodes[0] in d.nodes;
      SamePayload(sel, obs, c.nodes[0], d.nodes[0]);
    }
  }

  lemma LocalAlone(p: Plan, sel: Selection, obs: Observed, c: Cohort)
    requires GoodInputs(p.nodes, obs) && CohortIs(c, sel, obs, p.nodes) && AllLocal(sel, obs, p.nodes)
    ensures |c.nodes| == 1
  {
    hide Classify, TextLeq, ConfirmedShared, ConfirmedLocal;
    assert c.nodes[0] in c.nodes;
    if |c.nodes| > 1 {
      assert c.nodes[1] in c.nodes;
      ConfirmedMeans(sel, obs, c.nodes[0]);
      SamePayload(sel, obs, c.nodes[0], c.nodes[1]);
    }
  }

  lemma LocalModeHolds(p: Plan, sel: Selection, obs: Observed)
    requires GoodInputs(p.nodes, obs) && PlanIs(p, sel, obs) && AllLocal(sel, obs, p.nodes)
    ensures p.mode == ModeNodeLocal
  {
    hide Classify, TextLeq, ScopeOf, FinalFindings, FullyObserved, ProbesAre, ObservedMode, InOrder;
    hide ConfirmedShared, ConfirmedLocal;
    forall n | n in p.nodes ensures Confirmed(sel, obs, n) {}
    ConfirmedMode(p, sel, obs);
    forall c | c in p.cohorts ensures PayloadScope(c.payload) == LocalScope && |c.nodes| == 1 {
      CohortsConfirmed(p, sel, obs, c);
      ConfirmedMeans(sel, obs, c.nodes[0]);
      LocalAlone(p, sel, obs, c);
    }
  }

  /**
    Main result: the observed mode is shared exactly when every expected node is confirmed on one identical shared
    storage, node-local exactly when every node is confirmed local, and unknown exactly when some node is neither.
   */
  lemma ModeExact(p: Plan, sel: Selection, obs: Observed)
    requires GoodInputs(p.nodes, obs) && PlanIs(p, sel, obs)
    ensures p.mode == ModeShared <==> AllShared(sel, obs, p.nodes)
    ensures p.mode == ModeNodeLocal <==> AllLocal(sel, obs, p.nodes)
    ensures p.mode == ModeUnknown <==> exists n :: n in p.nodes && !Confirmed(sel, obs, n)
  {
    hide PlanIs, Confirmed, ConfirmedShared, ConfirmedLocal, AllShared, AllLocal;
    if p.mode == ModeShared { SharedIsAll(p, sel, obs); }
    if AllShared(sel, obs, p.nodes) { SharedModeHolds(p, sel, obs); }
    if p.mode == ModeNodeLocal { LocalIsAll(p, sel, obs); }
    if AllLocal(sel, obs, p.nodes) { LocalModeHolds(p, sel, obs); }
    if n :| n in p.nodes && !Confirmed(sel, obs, n) { UnconfirmedMode(p, sel, obs, n); }
    if forall n :: n in p.nodes ==> Confirmed(sel, obs, n) { ConfirmedMode(p, sel, obs); }
  }

  lemma SharedIsAll(p: Plan, sel: Selection, obs: Observed)
    requires GoodInputs(p.nodes, obs) && PlanIs(p, sel, obs) && p.mode == ModeShared
    ensures AllShared(sel, obs, p.nodes)
  {
    hide PlanIs;
    forall a, b | a in p.nodes && b in p.nodes
      ensures ConfirmedShared(sel, obs, a) && ConfirmedShared(sel, obs, b) && obs[a].identity == obs[b].identity
    {
      SharedMeans(p, sel, obs, a, b);
    }
  }

  lemma LocalIsAll(p: Plan, sel: Selection, obs: Observed)
    requires GoodInputs(p.nodes, obs) && PlanIs(p, sel, obs) && p.mode == ModeNodeLocal
    ensures AllLocal(sel, obs, p.nodes)
  {
    hide PlanIs, ConfirmedLocal;
    forall n | n in p.nodes ensures ConfirmedLocal(sel, obs, n) { NodeLocalMeans(p, sel, obs, n); }
  }

  // ---------------------------------------------------------------- verdicts and findings

  /** The verdict on a node, read off its evidence. */
  ghost function Verdict(sel: Selection, obs: Observed, n: Node): (Status, string) {
    if n !in obs then (Unknown, "CONDA_STORAGE_OBSERVATION_MISSING") else
      var o := obs[n];
      if !o.collected then
        (Unknown, if o.reason == None then "CONDA_STORAGE_COLLECTION_INCOMPLETE" else o.reason.value)
      else if o.prefix != sel.prefix then (Fail, "CONDA_PREFIX_MISMATCH")
      else if !o.prefixExists then (Fail, "CONDA_PREFIX_UNREACHABLE")
      else if !o.pythonExecutable then (Fail, "CONDA_PYTHON_NOT_EXECUTABLE")
      else if ConfirmedShared(sel, obs, n) then
        if sel.storage == Shared then (Pass, "SHARED_IDENTITY_MATCH") else (Fail, "CONDA_STORAGE_MODE_MISMATCH")
      else if ConfirmedLocal(sel, obs, n) then
        if sel.storage == NodeLocal then (Pass, "NODE_LOCAL_IDENTITY_CONFIRMED")
        else (Fail, "CONDA_STORAGE_MODE_MISMATCH")
      else (Unknown, if sel.storage == Shared then "SHARED_IDENTITY_UNKNOWN" else "NODE_LOCAL_IDENTITY_UNKNOWN")
  }

  /** Main result: the key of a node comes with the verdict that its evidence calls for. */
  lemma ClassifyMeans(sel: Selection, obs: Observed, n: Node)
    ensures var k := Classify(sel, obs, n);
            (k.status, k.reason) == Verdict(sel, obs, n) && (k.usable <==> n in obs && Usable(obs[n], sel.prefix))
  {
    ConfirmedIs(sel, obs, n);
    hide ConfirmedShared, ConfirmedLocal, ScopeOf, Complete;
  }

  /**
    Main result: a cohort has the verdict of each of its nodes, and the probed nodes are those with usable evidence.
   */
  lemma CohortVerdicts(p: Plan, sel: Selection, obs: Observed)
    requires PlanIs(p, sel, obs)
    ensures forall c, n :: c in p.cohorts && n in c.nodes ==>
              && (c.status, c.reason) == Verdict(sel, obs, n)
              && c.representative == if n in obs && Usable(obs[n], sel.prefix) then Some(c.nodes[0]) else None
    ensures forall n :: n in p.probes <==> n in p.nodes && n in obs && Usable(obs[n], sel.prefix)
  {
    hide Classify, Verdict, Usable, InOrder, TextLeq, ObservedMode, FinalFindings, FullyObserved;
    forall n ensures var k := Classify(sel, obs, n);
      (k.status, k.reason) == Verdict(sel, obs, n) && (k.usable <==> n in obs && Usable(obs[n], sel.prefix))
    {
      ClassifyMeans(sel, obs, n);
    }
    forall c | c in p.cohorts ensures CohortIs(c, sel, obs, p.nodes) {}
  }

  /** One finding for each node that does not pass, in order. */
  ghost function Failures(sel: Selection, obs: Observed, nodes: seq<Node>): seq<Finding> {
    if nodes == [] then [] else
      var n := |nodes| - 1;
      var v := Verdict(sel, obs, nodes[n]);
      Failures(sel, obs, nodes[..n]) + if v.0 == Pass then [] else [Finding(v.0, v.1, [nodes[n]])]
  }

  lemma {:induction false} NodeFindingsAre(sel: Selection, obs: Observed, nodes: seq<Node>)
    ensures NodeFindings(sel, obs, nodes) == Failures(sel, obs, nodes)
  {
    hide Classify, Verdict;
    if nodes != [] {
      var n := |nodes| - 1;
      NodeFindingsAre(sel, obs, nodes[..n]);
      ClassifyMeans(sel, obs, nodes[n]);
    }
  }

  lemma {:induction false} FailureReported(sel: Selection, obs: Observed, nodes: seq<Node>, reason: string)
    ensures Reported(Failures(sel, obs, nodes), reason)
       <==> exists n :: n in nodes && Verdict(sel, obs, n).0 != Pass && Verdict(sel, obs, n).1 == reason
  {
    hide Verdict;
    if nodes != [] {
      var k := |nodes| - 1;
      FailureReported(sel, obs, nodes[..k], reason);
      var before, all := Failures(sel, obs, nodes[..k]), Failures(sel, obs, nodes);
      assert forall i :: 0 <= i < |before| ==> all[i] == before[i];
      assert nodes == nodes[..k] + [nodes[k]];
      var v := Verdict(sel, obs, nodes[k]);
      if v.0 != Pass { assert all[|before|] == Finding(v.0, v.1, [nodes[k]]); }
    }
  }

  lemma ConfirmedVerdict(sel: Selection, obs: Observed, n: Node)
    requires Confirmed(sel, obs, n)
    ensures Verdict(sel, obs, n).0 == Pass || Verdict(sel, obs, n).1 == "CONDA_STORAGE_MODE_MISMATCH"
    ensures ConfirmedShared(sel, obs, n) ==> (Verdict(sel, obs, n).0 == Pass <==> sel.storage == Shared)
    ensures ConfirmedLocal(sel, obs, n) ==> (Verdict(sel, obs, n).0 == Pass <==> sel.storage == NodeLocal)
  {
    ConfirmedIs(sel, obs, n);
  }

  /**
    Main result: the findings are one for each node that does not pass, and behind them one for the whole plan
    exactly when shared storage was declared and the confirmed nodes are split. The other finding that the code
    could append for the whole plan never occurs.
   */
  lemma FindingsExact(p: Plan, sel: Selection, obs: Observed)
    requires GoodInputs(p.nodes, obs) && PlanIs(p, sel, obs)
    ensures p.findings == Failures(sel, obs, p.nodes)
                          + if sel.storage == Shared && p.mode == ModeSplit
                            then [Finding(Fail, "SHARED_ENV_SPLIT", p.nodes)] else []
  {
    hide Verdict, Cohorts, InOrder, ProbesAre, ObservedMode, FullyObserved, Reported, Confirmed;
    var failures := Failures(sel, obs, p.nodes);
    NodeFindingsAre(sel, obs, p.nodes);
    ModeExact(p, sel, obs);
    if sel.storage == Shared && p.mode == ModeSplit {
      FailureReported(sel, obs, p.nodes, "SHARED_ENV_SPLIT");
      assert "SHARED_ENV_SPLIT"[0] != "CONDA_STORAGE_MODE_MISMATCH"[0];
      forall n | n in p.nodes
        ensures Verdict(sel, obs, n).0 == Pass || Verdict(sel, obs, n).1 == "CONDA_STORAGE_MODE_MISMATCH"
      {
        ConfirmedVerdict(sel, obs, n);
      }
    } else if (p.mode == ModeNodeLocal || p.mode == ModeShared) && p.mode != Declared(sel.storage) {
      MismatchReported(p, sel, obs);
    } else {
      assert failures + [] == failures;
    }
  }

  lemma MismatchReported(p: Plan, sel: Selection, obs: Observed)
    requires p.nodes != [] && p.mode != Declared(sel.storage)
    requires || (p.mode == ModeNodeLocal && AllLocal(sel, obs, p.nodes))
             || (p.mode == ModeShared && AllShared(sel, obs, p.nodes))
    ensures Reported(Failures(sel, obs, p.nodes), "CONDA_STORAGE_MODE_MISMATCH")
  {
    hide Verdict, Reported, ConfirmedShared, ConfirmedLocal;
    var n := p.nodes[0];
    assert n in p.nodes;
    ConfirmedVerdict(sel, obs, n);
    FailureReported(sel, obs, p.nodes, "CONDA_STORAGE_MODE_MISMATCH");
  }

  // ---------------------------------------------------------------- partition and representatives

  ghost predicate Together(p: Plan, a: Node, b: Node) {
    exists c :: c in p.cohorts && a in c.nodes && b in c.nodes
  }

  /**
    Main result: the cohorts partition the expected nodes, and two nodes share one iff they are confirmed on the
    same shared storage.
   */
  lemma CohortsPartition(p: Plan, sel: Selection, obs: Observed, a: Node, b: Node)
    requires GoodInputs(p.nodes, obs) && PlanIs(p, sel, obs) && a in p.nodes && b in p.nodes
    ensures Together(p, a, b) <==>
            a == b || (ConfirmedShared(sel, obs, a) && ConfirmedShared(sel, obs, b)
                && obs[a].identity == obs[b].identity)
    ensures forall c, d :: c in p.cohorts && d in p.cohorts && a in c.nodes && a in d.nodes ==> c == d
  {
    hide InOrder, Classify, TextLeq, FinalFindings, ObservedMode, ConfirmedShared;
    SamePayload(sel, obs, a, b);
    var c := CohortOf(p, sel, obs, a);
    if Together(p, a, b) {
      var d :| d in p.cohorts && a in d.nodes && b in d.nodes;
      assert CohortIs(d, sel, obs, p.nodes);
    }
    forall c, d | c in p.cohorts && d in p.cohorts && a in c.nodes && a in d.nodes ensures c == d {
      assert CohortIs(c, sel, obs, p.nodes) && CohortIs(d, sel, obs, p.nodes);
    }
  }

  /** Main result: a usable cohort is represented by its least node, and no node represents two cohorts. */
  lemma Representatives(p: Plan, sel: Selection, obs: Observed, c: Cohort)
    requires GoodInputs(p.nodes, obs) && PlanIs(p, sel, obs) && c in p.cohorts
    ensures c.representative.Some? <==> exists n :: n in c.nodes && n in p.probes
    ensures c.representative.Some? ==>
              c.representative.value in c.nodes && forall m :: m in c.nodes ==> TextLeq(c.representative.value, m)
    ensures forall d :: d in p.cohorts && d.representative.Some? && d.representative == c.representative ==> d == c
  {
    hide InOrder, Classify, TextLeq, FinalFindings, ObservedMode;
    assert CohortIs(c, sel, obs, p.nodes);
    var first := c.nodes[0];
    assert first in c.nodes;
    TextOrder();
    assert TextLeq(first, first);
    forall d | d in p.cohorts && d.representative.Some? && d.representative == c.representative ensures d == c {
      assert CohortIs(d, sel, obs, p.nodes);
      assert d.nodes[0] in d.nodes;
    }
  }

  /** The representatives of the usable cohorts. */
  function Chosen(cohorts: seq<Cohort>): (r: seq<Node>)
    ensures forall n :: n in r <==> exists c :: c in cohorts && c.representative == Some(n)
  {
    if cohorts == [] then [] else
      (match cohorts[0].representative case Some(n) => [n] case None => []) + Chosen(cohorts[1..])
  }

  /** The nodes on which the artifact itself is probed. */
  function ArtifactNodes(p: Plan): seq<Node> {
    Sort(TextLeq, Chosen(p.cohorts))
  }

  ghost predicate OwnRepresentatives(cohorts: seq<Cohort>) {
    forall i, j :: 0 <= i < j < |cohorts| && cohorts[i].representative.Some? ==>
      cohorts[i].representative != cohorts[j].representative
  }

  lemma {:induction false} ChosenDistinct(cohorts: seq<Cohort>)
    requires OwnRepresentatives(cohorts)
    ensures Distinct(Chosen(cohorts))
  {
    if cohorts != [] {
      var rest := cohorts[1..];
      ChosenDistinct(rest);
      if cohorts[0].representative.Some? {
        var n := cohorts[0].representative.value;
        forall c | c in rest ensures c.representative != Some(n) {
          var i :| 0 <= i < |rest| && rest[i] == c;
          assert cohorts[i + 1] == c;
        }
        assert n !in Chosen(rest);
      }
    }
  }

  lemma PlanRepresentatives(p: Plan, sel: Selection, obs: Observed)
    requires PlanIs(p, sel, obs)
    ensures OwnRepresentatives(p.cohorts)
  {
    hide InOrder, Classify, TextLeq, FinalFindings, ObservedMode, ProbesAre;
    forall i, j | 0 <= i < j < |p.cohorts| && p.cohorts[i].representative.Some?
      ensures p.cohorts[i].representative != p.cohorts[j].representative
    {
      var c, d := p.cohorts[i], p.cohorts[j];
      assert c in p.cohorts && d in p.cohorts;
      assert c.nodes[0] in c.nodes && d.nodes[0] in d.nodes;
    }
  }

  /** Main result: the artifact nodes hit each usable cohort exactly once and no other node. */
  lemma ArtifactsHitOnce(p: Plan, sel: Selection, obs: Observed, c: Cohort)
    requires GoodInputs(p.nodes, obs) && PlanIs(p, sel, obs) && c in p.cohorts
    ensures Distinct(ArtifactNodes(p))
    ensures forall n :: n in c.nodes && n in ArtifactNodes(p) <==> c.representative == Some(n)
    ensures c.representative.Some? <==> exists n :: n in c.nodes && n in p.probes
  {
    hide InOrder, Classify, TextLeq, FinalFindings, ObservedMode, Sort, PlanIs, Chosen, ProbesAre;
    PlanRepresentatives(p, sel, obs);
    ChosenDistinct(p.cohorts);
    SortMultiset(TextLeq, Chosen(p.cohorts));
    SameCountsDistinct(Chosen(p.cohorts), ArtifactNodes(p));
    Representatives(p, sel, obs, c);
    forall n ensures n in c.nodes && n in ArtifactNodes(p) <==> c.representative == Some(n) {
      if n in c.nodes && n in ArtifactNodes(p) {
        var d :| d in p.cohorts && d.representative == Some(n);
        OneCohortPerNode(p, sel, obs, c, d, n);
      }
      if c.representative == Some(n) {
        assert n in Chosen(p.cohorts);
      }
    }
  }

  lemma OneCohortPerNode(p: Plan, sel: Selection, obs: Observed, c: Cohort, d: Cohort, n: Node)
    requires PlanIs(p, sel, obs) && c in p.cohorts && d in p.cohorts && n in c.nodes && d.representative == Some(n)
    ensures c == d
  {
    hide InOrder, Classify, TextLeq, FinalFindings, ObservedMode, ProbesAre;
    assert CohortIs(c, sel, obs, p.nodes) && CohortIs(d, sel, obs, p.nodes);
    assert d.nodes[0] in d.nodes;
  }

  // ---------------------------------------------------------------- order of observation

  lemma SameIndex(obs: Observed, other: Observed, observations: seq<Observation>, shuffled: seq<Observation>)
    requires Indexes(obs, observations) && Indexes(other, shuffled)
    requires forall o :: o in observations <==> o in shuffled
    ensures obs == other
  {
    forall n | n in obs ensures n in other && other[n] == obs[n] { assert obs[n] in shuffled; }
    forall n | n in other ensures n in obs { assert other[n] in observations; }
  }

  lemma SameNodes(a: seq<Node>, b: seq<Node>)
    requires Sorted(TextLeq, a) && Sorted(TextLeq, b) && Distinct(a) && Distinct(b) && forall n :: n in a <==> n in b
    ensures a == b
  {
    hide TextLeq, Sorted;
    TextOrder();
    DistinctSameElements(a, b);
    SortedUnique(TextLeq, a, b);
  }

  lemma EqualCohorts(c: Cohort, d: Cohort, sel: Selection, obs: Observed, nodes: seq<Node>)
    requires CohortIs(c, sel, obs, nodes) && CohortIs(d, sel, obs, nodes) && c.payload == d.payload
    ensures c == d
  {
    hide TextLeq, Classify, Sorted, Distinct;
    SameNodes(c.nodes, d.nodes);
    assert c.nodes[0] in c.nodes;
  }

  lemma SameCohort(p: Plan, q: Plan, sel: Selection, obs: Observed, c: Cohort)
    requires PlanIs(p, sel, obs) && PlanIs(q, sel, obs) && p.nodes == q.nodes && c in p.cohorts
    ensures c in q.cohorts
  {
    hide InOrder, Classify, TextLeq, FinalFindings, ObservedMode, ProbesAre, Sorted, Distinct, FullyObserved;
    assert CohortIs(c, sel, obs, p.nodes);
    assert c.nodes[0] in c.nodes;
    var d := CohortOf(q, sel, obs, c.nodes[0]);
    EqualCohorts(c, d, sel, obs, p.nodes);
  }

  predicate FirstLeq(c: Cohort, d: Cohort) {
    c.nodes == [] || (d.nodes != [] && TextLeq(c.nodes[0], d.nodes[0]))
  }

  /** Distinct first nodes in order: the same cohorts are the same list. */
  lemma SameList(a: seq<Cohort>, b: seq<Cohort>)
    requires InOrder(a) && InOrder(b) && Distinct(a) && Distinct(b) && forall c :: c in a <==> c in b
    requires forall c, d :: c in a && d in a && c.nodes[0] == d.nodes[0] ==> c == d
    ensures a == b
  {
    hide TextLeq;
    TextOrder();
    DistinctSameElements(a, b);
    FirstSorted(a);
    FirstSorted(b);
    assert AntisymmetricOn(FirstLeq, a);
    hide FirstLeq, Sorted, AntisymmetricOn;
    SortedUnique(FirstLeq, a, b);
  }

  lemma FirstSorted(a: seq<Cohort>)
    requires InOrder(a)
    ensures Sorted(FirstLeq, a)
  {
    hide TextLeq;
    forall i, j | 0 <= i < j < |a| ensures FirstLeq(a[i], a[j]) {
      assert a[i] in a && a[j] in a;
    }
  }

  /** Cohorts with one first node are one cohort, and none is listed twice. */
  lemma CohortsDistinct(p: Plan, sel: Selection, obs: Observed)
    requires Cohorts(p.cohorts, sel, obs, p.nodes)
    ensures Distinct(p.cohorts)
    ensures forall c, d :: c in p.cohorts && d in p.cohorts && c.nodes[0] == d.nodes[0] ==> c == d
  {
    hide Classify, TextLeq, HasCohort;
    forall c, d | c in p.cohorts && d in p.cohorts && c.nodes[0] == d.nodes[0] ensures c == d {
      assert c.nodes[0] in c.nodes && d.nodes[0] in d.nodes;
    }
  }

  lemma SameProbes(p: Plan, q: Plan, sel: Selection, obs: Observed)
    requires ProbesAre(p.probes, sel, obs, p.nodes) && ProbesAre(q.probes, sel, obs, q.nodes) && p.nodes == q.nodes
    ensures p.probes == q.probes
  {
    hide Classify, TextLeq, Sorted, Distinct;
    SameNodes(p.probes, q.probes);
  }

  /** Main result: the plan does not depend on the order in which the observations arrived. */
  lemma OrderIrrelevant(p: Plan, q: Plan, sel: Selection, obs: Observed, other: Observed,
                        observations: seq<Observation>, shuffled: seq<Observation>)
    requires Indexes(obs, observations) && Indexes(other, shuffled)
    requires forall o :: o in observations <==> o in shuffled
    requires GoodInputs(p.nodes, obs) && PlanIs(p, sel, obs) && GoodInputs(q.nodes, other) && PlanIs(q, sel, other)
    requires forall n :: n in p.nodes <==> n in q.nodes
    ensures p.nodes == q.nodes && p.mode == q.mode && p.findings == q.findings
    ensures p.cohorts == q.cohorts && p.probes == q.probes
  {
    SameIndex(obs, other, observations, shuffled);
    SameNodes(p.nodes, q.nodes);
    SameProbes(p, q, sel, obs);
    forall c | c in p.cohorts ensures c in q.cohorts { SameCohort(p, q, sel, obs, c); }
    forall c | c in q.cohorts ensures c in p.cohorts { SameCohort(q, p, sel, obs, c); }
    hide Indexes, ObservedMode, FinalFindings, ProbesAre, NodeFindings, TextLeq, Sorted, Distinct, FullyObserved,
        CohortIs, HasCohort;
    CohortsDistinct(p, sel, obs);
    CohortsDistinct(q, sel, obs);
    hide InOrder, Cohorts;
    SameList(p.cohorts, q.cohorts);
  }
}
