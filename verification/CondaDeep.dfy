/** One runtime representative per storage cohort and host cohort (`plan_deep_runtime_representatives`). */
module CondaDeep {
  import opened Wrappers
  import opened Ordering
  import opened CondaPlan

  /** The usable cohort that lists the node, by its key. */
  function StorageOf(cohorts: seq<Cohort>, n: Node): (r: Option<Payload>)
    ensures r.Some? ==> exists c :: c in cohorts && n in c.nodes && c.representative.Some? && c.payload == r.value
    ensures r.None? ==> forall c :: c in cohorts && c.representative.Some? ==> n !in c.nodes
  {
    if cohorts == [] then None
    else if cohorts[0].representative.Some? && n in cohorts[0].nodes then Some(cohorts[0].payload)
    else StorageOf(cohorts[1..], n)
  }

  type Class = (Payload, string)

  datatype DeepError = MappingMismatch | BadHost

  predicate IsControl(c: char) {
    c < ' ' || c == '\U{7F}'
  }

  /** value.strip(); other blanks are control characters and refused. */
  function Strip(s: string): string {
    if s == "" then s
    else if s[0] == ' ' then Strip(s[1..])
    else if s[|s| - 1] == ' ' then Strip(s[..|s| - 1])
    else s
  }

  /** `_required_text`: the stripped text, refused when it is blank or holds a control character. */
  function RequiredText(s: string): Option<string> {
    if Strip(s) == "" || exists i :: 0 <= i < |s| && IsControl(s[i]) then None else Some(Strip(s))
  }

  ghost predicate Spaces(s: string) {
    forall i :: 0 <= i < |s| ==> s[i] == ' '
  }

  /** No control character, and something other than spaces. */
  ghost predicate Sayable(s: string) {
    (forall i :: 0 <= i < |s| ==> 32 <= s[i] as int != 127) && !Spaces(s)
  }

  ghost predicate Around(s: string, a: string, core: string, b: string) {
    s == a + core + b && Spaces(a) && Spaces(b)
  }

  /** The text without the spaces around it. */
  ghost predicate IsCore(s: string, core: string) {
    && core != "" && core[0] != ' ' && core[|core| - 1] != ' '
    && exists a, b :: Around(s, a, core, b)
  }

  ghost predicate Stripped(s: string, core: string) {
    if core == "" then Spaces(s) else IsCore(s, core)
  }

  lemma SpaceInFront(s: string, core: string)
    requires Stripped(s, core)
    ensures Stripped([' '] + s, core)
  {
    if core != "" {
      var a, b :| Around(s, a, core, b);
      assert Around([' '] + s, [' '] + a, core, b);
    }
  }

  lemma SpaceBehind(s: string, core: string)
    requires Stripped(s, core)
    ensures Stripped(s + [' '], core)
  {
    if core != "" {
      var a, b :| Around(s, a, core, b);
      assert Around(s + [' '], a, core, b + [' ']);
    }
  }

  lemma Bare(s: string)
    requires s == "" || (s[0] != ' ' && s[|s| - 1] != ' ')
    ensures Stripped(s, s)
  {
    assert Around(s, [], s, []);
  }

  lemma {:induction false} StripIs(s: string)
    ensures Stripped(s, Strip(s))
    decreases |s|
  {
    hide Stripped;
    if s != "" && s[0] == ' ' {
      StripIs(s[1..]);
      SpaceInFront(s[1..], Strip(s[1..]));
      assert s == [' '] + s[1..];
    } else if s != "" && s[|s| - 1] == ' ' {
      StripIs(s[..|s| - 1]);
      SpaceBehind(s[..|s| - 1], Strip(s[..|s| - 1]));
      assert s == s[..|s| - 1] + [' '];
    } else {
      Bare(s);
    }
  }

  /** Main result: a host name is refused exactly when it is blank or holds a control character, and is stripped. */
  lemma RequiredExact(s: string)
    ensures RequiredText(s).Some? <==> Sayable(s)
    ensures RequiredText(s).Some? ==> IsCore(s, RequiredText(s).value)
  {
    hide Strip;
    StripIs(s);
    if IsCore(s, Strip(s)) {
      var core := Strip(s);
      var a, b :| Around(s, a, core, b);
      assert s[|a|] == core[0];
    }
    if exists i :: 0 <= i < |s| && IsControl(s[i]) {
      var i :| 0 <= i < |s| && IsControl(s[i]);
      assert !(32 <= s[i] as int != 127);
    }
  }

  /** The runtime cohort of a node; none when its storage cohort is not usable. */
  function ClassOf(p: Plan, hostOf: map<Node, string>, n: Node): Option<Class> {
    match StorageOf(p.cohorts, n)
    case None => None
    case Some(s) =>
      if n in hostOf && RequiredText(hostOf[n]).Some? then Some((s, RequiredText(hostOf[n]).value)) else None
  }

  /** Some probed node of a usable cohort has a refused host cohort. */
  predicate UnnamedHost(p: Plan, hostOf: map<Node, string>) {
    exists i :: 0 <= i < |p.probes| && StorageOf(p.cohorts, p.probes[i]).Some? && p.probes[i] in hostOf
        && RequiredText(hostOf[p.probes[i]]).None?
  }

  /** Some probed node of a usable cohort has a host name that says nothing. */
  ghost predicate Nameless(p: Plan, hostOf: map<Node, string>) {
    exists n :: n in p.probes && n in hostOf && !Sayable(hostOf[n])
                && exists c :: c in p.cohorts && n in c.nodes && c.representative.Some?
  }

  lemma NamelessExact(p: Plan, hostOf: map<Node, string>)
    ensures UnnamedHost(p, hostOf) <==> Nameless(p, hostOf)
  {
    hide RequiredText, Sayable, StorageOf;
    forall s: string ensures RequiredText(s).Some? <==> Sayable(s) { RequiredExact(s); }
    if UnnamedHost(p, hostOf) {
      var i :| 0 <= i < |p.probes| && StorageOf(p.cohorts, p.probes[i]).Some? && p.probes[i] in hostOf
               && RequiredText(hostOf[p.probes[i]]).None?;
      assert p.probes[i] in p.probes;
    }
    if Nameless(p, hostOf) {
      var n :| n in p.probes && n in hostOf && !Sayable(hostOf[n])
               && exists c :: c in p.cohorts && n in c.nodes && c.representative.Some?;
      var i :| 0 <= i < |p.probes| && p.probes[i] == n;
    }
  }

  function Least(nodes: seq<Node>): (m: Node)
    requires nodes != []
    ensures m in nodes
  {
    if |nodes| == 1 then nodes[0] else
      var m := Least(nodes[1..]);
      if TextLeq(nodes[0], m) then nodes[0] else m
  }

  lemma {:induction false} LeastIsLeast(nodes: seq<Node>)
    requires nodes != []
    ensures forall n :: n in nodes ==> TextLeq(Least(nodes), n)
  {
    hide TextLeq;
    TextOrder();
    if |nodes| > 1 {
      LeastIsLeast(nodes[1..]);
      assert forall n :: n in nodes ==> n == nodes[0] || n in nodes[1..];
      assert TextLeq(nodes[0], Least(nodes[1..])) || TextLeq(Least(nodes[1..]), nodes[0]);
      assert TextLeq(nodes[0], nodes[0]);
    }
  }

  /** The groups hold exactly the probed nodes, each under its class. */
  ghost predicate GroupsHold(groups: map<Class, seq<Node>>, p: Plan, hostOf: map<Node, string>, nodes: seq<Node>) {
    && (forall k :: k in groups ==> groups[k] != [])
    && (forall k, n :: k in groups && n in groups[k] ==> n in nodes && ClassOf(p, hostOf, n) == Some(k))
    && (forall n :: n in nodes && ClassOf(p, hostOf, n).Some? ==>
          ClassOf(p, hostOf, n).value in groups && n in groups[ClassOf(p, hostOf, n).value])
  }

  method GroupProbes(p: Plan, hostOf: map<Node, string>) returns (groups: map<Class, seq<Node>>)
    ensures GroupsHold(groups, p, hostOf, p.probes)
  {
    hide ClassOf;
    groups := map[];
    for i := 0 to |p.probes|
      invariant GroupsHold(groups, p, hostOf, p.probes[..i])
    {
      var n := p.probes[i];
      assert p.probes[..i + 1] == p.probes[..i] + [n];
      var k := ClassOf(p, hostOf, n);
      if k.Some? {
        groups := groups[k.value := (if k.value in groups then groups[k.value] else []) + [n]];
      }
    }
    assert p.probes[..|p.probes|] == p.probes;
  }

  /** The least node of each group, in no particular order. */
  ghost predicate LeastOfEach(chosen: seq<Node>, p: Plan, hostOf: map<Node, string>, groups: map<Class, seq<Node>>)
    requires forall k :: k in groups ==> groups[k] != []
  {
    && (forall m :: m in chosen ==> m in p.probes && ClassOf(p, hostOf, m).Some?)
    && (forall k :: k in groups ==> Least(groups[k]) in chosen)
    && (forall i, j :: 0 <= i < j < |chosen| ==> ClassOf(p, hostOf, chosen[i]) != ClassOf(p, hostOf, chosen[j]))
  }

  method ChooseLeast(p: Plan, hostOf: map<Node, string>, groups: map<Class, seq<Node>>) returns (chosen: seq<Node>)
    requires GroupsHold(groups, p, hostOf, p.probes)
    ensures LeastOfEach(chosen, p, hostOf, groups)
  {
    hide ClassOf;
    var rest := groups.Keys;
    chosen := [];
    while rest != {}
      invariant rest <= groups.Keys
      invariant forall m :: m in chosen ==>
                  m in p.probes && ClassOf(p, hostOf, m).Some? && ClassOf(p, hostOf, m).value in groups.Keys - rest
      invariant forall k :: k in groups && k !in rest ==> Least(groups[k]) in chosen
      invariant forall i, j :: 0 <= i < j < |chosen| ==> ClassOf(p, hostOf, chosen[i]) != ClassOf(p, hostOf, chosen[j])
      decreases rest
    {
      var k :| k in rest;
      var m := Least(groups[k]);
      assert ClassOf(p, hostOf, m) == Some(k);
      chosen := chosen + [m];
      rest := rest - {k};
    }
  }

  ghost predicate SameDomain(hostOf: map<Node, string>, nodes: seq<Node>) {
    forall n :: n in hostOf <==> n in nodes
  }

  ghost predicate Represented(r: seq<Node>, p: Plan, hostOf: map<Node, string>, n: Node) {
    exists m :: m in r && ClassOf(p, hostOf, m) == ClassOf(p, hostOf, n) && TextLeq(m, n)
  }

  /** The representatives hit each class of the probed nodes exactly once, with a least node, and nothing else. */
  ghost predicate HitsEachClass(r: seq<Node>, p: Plan, hostOf: map<Node, string>) {
    && (forall m :: m in r ==> m in p.probes && ClassOf(p, hostOf, m).Some?)
    && (forall n :: n in p.probes && ClassOf(p, hostOf, n).Some? ==> Represented(r, p, hostOf, n))
    && (forall i, j :: 0 <= i < j < |r| ==> ClassOf(p, hostOf, r[i]) != ClassOf(p, hostOf, r[j]))
  }

  lemma GroupRepresents(chosen: seq<Node>, p: Plan, hostOf: map<Node, string>, groups: map<Class, seq<Node>>, n: Node)
    requires GroupsHold(groups, p, hostOf, p.probes) && n in p.probes && ClassOf(p, hostOf, n).Some?
    requires forall k :: k in groups ==> Least(groups[k]) in chosen
    ensures Represented(chosen, p, hostOf, n)
  {
    hide ClassOf, TextLeq, Least;
    var k := ClassOf(p, hostOf, n).value;
    LeastIsLeast(groups[k]);
    assert Least(groups[k]) in groups[k];
  }

  lemma LeastHits(chosen: seq<Node>, p: Plan, hostOf: map<Node, string>, groups: map<Class, seq<Node>>)
    requires GroupsHold(groups, p, hostOf, p.probes) && LeastOfEach(chosen, p, hostOf, groups)
    ensures HitsEachClass(Sort(TextLeq, chosen), p, hostOf) && Sorted(TextLeq, Sort(TextLeq, chosen))
  {
    hide ClassOf, TextLeq, Sort, Least, Sorted, Represented, GroupsHold;
    var sorted := Sort(TextLeq, chosen);
    TextOrder();
    SortSorted(TextLeq, chosen);
    SortKeepsElements(TextLeq, chosen);
    SortedClasses(p, hostOf, chosen, sorted);
    forall n | n in p.probes && ClassOf(p, hostOf, n).Some? ensures Represented(sorted, p, hostOf, n) {
      GroupRepresents(sorted, p, hostOf, groups, n);
    }
  }

  /** Main result: each storage and host class of the probed nodes is hit exactly once, by its least node. */
  method DeepRepresentatives(p: Plan, hostOf: map<Node, string>) returns (r: Result<seq<Node>, DeepError>)
    requires forall n :: n in p.probes ==> n in p.nodes
    ensures r.Ok? <==> SameDomain(hostOf, p.nodes) && !Nameless(p, hostOf)
    ensures r.Err? ==> r.error == if SameDomain(hostOf, p.nodes) then BadHost else MappingMismatch
    ensures r.Ok? ==> HitsEachClass(r.value, p, hostOf) && Sorted(TextLeq, r.value)
  {
    hide UnnamedHost, Nameless, HitsEachClass;
    NamelessExact(p, hostOf);
    if hostOf.Keys != (set n | n in p.nodes) {
      assert exists n :: (n in hostOf.Keys) != (n in (set n | n in p.nodes));
      return Err(MappingMismatch);
    }
    assert forall n :: n in p.nodes <==> n in hostOf.Keys;
    if UnnamedHost(p, hostOf) {
      return Err(BadHost);
    }
    var groups := GroupProbes(p, hostOf);
    var chosen := ChooseLeast(p, hostOf, groups);
    LeastHits(chosen, p, hostOf, groups);
    r := Ok(Sort(TextLeq, chosen));
  }

  lemma SortedClasses(p: Plan, hostOf: map<Node, string>, chosen: seq<Node>, sorted: seq<Node>)
    requires sorted == Sort(TextLeq, chosen)
    requires forall i, j :: 0 <= i < j < |chosen| ==> ClassOf(p, hostOf, chosen[i]) != ClassOf(p, hostOf, chosen[j])
    ensures forall i, j :: 0 <= i < j < |sorted| ==> ClassOf(p, hostOf, sorted[i]) != ClassOf(p, hostOf, sorted[j])
  {
    hide ClassOf, TextLeq, Sort;
    SortMultiset(TextLeq, chosen);
    SameCountsDistinct(chosen, sorted);
    forall i, j | 0 <= i < j < |sorted| ensures ClassOf(p, hostOf, sorted[i]) != ClassOf(p, hostOf, sorted[j]) {
      assert sorted[i] in chosen && sorted[j] in chosen;
    }
  }

  /** In a plan, two probed nodes are in one storage class iff they are in one cohort. */
  lemma StorageIsCohort(p: Plan, sel: Selection, obs: Observed, a: Node, b: Node)
    requires GoodInputs(p.nodes, obs) && PlanIs(p, sel, obs) && a in p.probes && b in p.probes
    ensures StorageOf(p.cohorts, a).Some?
    ensures StorageOf(p.cohorts, a) == StorageOf(p.cohorts, b) <==> Together(p, a, b)
  {
    hide Classify, TextLeq, FinalFindings, ObservedMode, StorageOf;
    var c := CohortOf(p, sel, obs, a);
    var d := CohortOf(p, sel, obs, b);
    StorageIs(p, sel, obs, a, c);
    StorageIs(p, sel, obs, b, d);
    if Together(p, a, b) {
      var e :| e in p.cohorts && a in e.nodes && b in e.nodes;
      assert CohortIs(e, sel, obs, p.nodes);
    }
  }

  lemma StorageIs(p: Plan, sel: Selection, obs: Observed, n: Node, c: Cohort)
    requires PlanIs(p, sel, obs) && n in p.probes && c in p.cohorts && n in c.nodes
    ensures StorageOf(p.cohorts, n) == Some(c.payload)
  {
    hide Classify, TextLeq, FinalFindings, ObservedMode, StorageOf;
    assert CohortIs(c, sel, obs, p.nodes);
    assert c.representative.Some?;
    var s := StorageOf(p.cohorts, n);
    var d :| d in p.cohorts && n in d.nodes && d.representative.Some? && d.payload == s.value;
    assert CohortIs(d, sel, obs, p.nodes);
  }
}
