/** Grouping nodes by their static configuration (`build_consistency_summary`). */
module Consistency {
  import opened Wrappers
  import opened Ordering
  import opened CanonicalValue
  import opened PythonEquality

  datatype Scope = PlatformOnly | ResourceOnly | PlatformAndResource

  datatype Status = Ready | Blocked | Incomplete

  /** An accelerator as collected: a blank model or no memory size is missing evidence. */
  datatype Device = Device(model: string, hySmiMib: nat, rocminfoMib: nat)

  /** What was collected: the platform fields that have a value, and the resources. */
  datatype Evidence = Evidence(reachable: bool, platformFields: set<string>, hasMemTotal: bool,
                               deviceCount: Option<int>, devices: seq<Device>)

  const PLATFORM_FIELDS := {"container_os", "kernel", "driver_version", "dtk_version", "python_version",
                             "python_packages"}

  predicate DevicesComplete(e: Evidence) {
    e.deviceCount.Some?
    && (e.deviceCount.value > 0 ==>
          |e.devices| == e.deviceCount.value
          && forall i :: 0 <= i < |e.devices| ==>
               e.devices[i].model != "" && (e.devices[i].hySmiMib != 0 || e.devices[i].rocminfoMib != 0))
  }

  /** `_missing_configuration` finds nothing missing. */
  predicate Complete(e: Evidence, scope: Scope) {
    && e.reachable
    && (scope != ResourceOnly ==> PLATFORM_FIELDS <= e.platformFields)
    && (scope != PlatformOnly ==> e.hasMemTotal && DevicesComplete(e))
  }

  /** A device without a model or without a memory size. */
  ghost predicate Nondescript(d: Device) {
    d.model == "" || (d.hySmiMib == 0 && d.rocminfoMib == 0)
  }

  /** Some evidence that the scope asks for is missing. */
  ghost predicate Lacks(e: Evidence, scope: Scope) {
    || !e.reachable
    || (scope in {PlatformOnly, PlatformAndResource}
        && exists f :: f in {"container_os", "kernel", "driver_version", "dtk_version", "python_version",
                             "python_packages"} && f !in e.platformFields)
    || (scope in {ResourceOnly, PlatformAndResource}
        && (!e.hasMemTotal || e.deviceCount == None
            || (e.deviceCount.value > 0
                && (|e.devices| != e.deviceCount.value || exists d :: d in e.devices && Nondescript(d)))))
  }

  lemma CompleteExact(e: Evidence, scope: Scope)
    ensures Complete(e, scope) <==> !Lacks(e, scope)
  {
    if DevicesComplete(e) && e.deviceCount.value > 0 {
      assert forall d :: d in e.devices ==> !Nondescript(d);
    } else if e.deviceCount.Some? && e.deviceCount.value > 0 && |e.devices| == e.deviceCount.value {
      var i :| 0 <= i < |e.devices|
               && !(e.devices[i].model != "" && (e.devices[i].hySmiMib != 0 || e.devices[i].rocminfoMib != 0));
      assert e.devices[i] in e.devices && Nondescript(e.devices[i]);
    }
  }

  /** One node's selected static values, its check status and what was collected. */
  datatype Record = Record(node: string, platform: Json, resource: Json, status: Status, evidence: Evidence)

  ghost predicate ValidRecord(r: Record) {
    Valid(r.platform) && Valid(r.resource)
  }

  /** What is compared, how lists are ordered, and how views are printed as grouping keys. */
  datatype Setup = Setup(scope: Scope, order: Dump, key: Dump)

  /** Both printed texts tell values apart. */
  ghost predicate Sound(setup: Setup) {
    Lawful(setup.order) && Lawful(setup.key)
  }

  /** The normalised sections the scope enables. */
  function View(r: Record, setup: Setup): Json {
    Obj((if setup.scope == ResourceOnly then [] else [Field("platform", Canonical(setup.order, r.platform))])
        + (if setup.scope == PlatformOnly then [] else [Field("resource", Canonical(setup.order, r.resource))]))
  }

  /** The enabled sections are equal up to reordering at every depth. */
  ghost predicate SameView(r: Record, s: Record, setup: Setup) {
    && (setup.scope != ResourceOnly ==> Same(r.platform, s.platform))
    && (setup.scope != PlatformOnly ==> Same(r.resource, s.resource))
  }

  lemma ViewsDecide(r: Record, s: Record, setup: Setup)
    requires Sound(setup)
    requires ValidRecord(r) && ValidRecord(s)
    ensures View(r, setup) == View(s, setup) <==> SameView(r, s, setup)
  {
    hide Canonical, Same, Valid;
    CanonicalDecides(setup.order, r.platform, s.platform);
    CanonicalDecides(setup.order, r.resource, s.resource);
    var u, v := View(r, setup).fields, View(s, setup).fields;
    if setup.scope != ResourceOnly {
      assert u[0] == Field("platform", Canonical(setup.order, r.platform))
          && v[0] == Field("platform", Canonical(setup.order, s.platform));
    }
    if setup.scope != PlatformOnly {
      assert u[|u| - 1] == Field("resource", Canonical(setup.order, r.resource))
          && v[|v| - 1] == Field("resource", Canonical(setup.order, s.resource));
    }
  }

  lemma ViewIsNormal(r: Record, setup: Setup)
    ensures Normal(setup.order, View(r, setup))
  {
    hide Canonical, Normal, SortKeys, Sort, KeyLeq;
    var fields := View(r, setup).fields;
    CanonicalIsNormal(setup.order, r.platform);
    CanonicalIsNormal(setup.order, r.resource);
    NormalFields(setup.order, fields);
    SectionOrder(r, setup);
    SortIdempotent(KeyLeq, fields);
    ObjIsNormal(setup.order, fields);
  }

  lemma SectionOrder(r: Record, setup: Setup)
    ensures Sorted(KeyLeq, View(r, setup).fields)
  {
    hide Canonical;
    assert 'p' <= 'r' && 'p' != 'r';
    assert TextLeq("platform", "resource") by {
      assert "platform"[0] == 'p' && "resource"[0] == 'r';
    }
  }

  /** The grouping key: the dumped text tells views apart. */
  lemma KeyDecides(r: Record, s: Record, setup: Setup)
    requires Sound(setup)
    ensures setup.key(View(r, setup)) == setup.key(View(s, setup)) <==> View(r, setup) == View(s, setup)
  {
    hide View;
    ViewIsNormal(r, setup);
    ViewIsNormal(s, setup);
    hide SortKeys, Canonical;
  }

  datatype Group = Group(configuration: Json, nodes: seq<string>, passed: seq<string>, failed: seq<string>,
      incomplete: seq<string>)

  function NodesWith(records: seq<Record>, setup: Setup, configuration: Json, statuses: set<Status>): seq<string> {
    if records == [] then [] else
      var r := records[|records| - 1];
      NodesWith(records[..|records| - 1], setup, configuration, statuses)
      + (if View(r, setup) == configuration && r.status in statuses then [r.node] else [])
  }

  const ALL := {Ready, Blocked, Incomplete}

  /** The group of a configuration lists exactly the nodes with that view, in order, split by status. */
  ghost predicate GroupIs(g: Group, records: seq<Record>, setup: Setup) {
    && g.nodes == NodesWith(records, setup, g.configuration, ALL)
    && g.passed == NodesWith(records, setup, g.configuration, {Ready})
    && g.failed == NodesWith(records, setup, g.configuration, {Blocked})
    && g.incomplete == NodesWith(records, setup, g.configuration, {Incomplete})
  }

  /** One group per distinct view, none of them empty. */
  ghost predicate Grouped(groups: seq<Group>, records: seq<Record>, setup: Setup) {
    && (forall i, j :: 0 <= i < j < |groups| ==> groups[i].configuration != groups[j].configuration)
    && (forall g :: g in groups ==> GroupIs(g, records, setup))
    && (forall r :: r in records ==> HasGroup(groups, View(r, setup)))
    && (forall g :: g in groups ==> IsView(records, setup, g.configuration))
  }

  ghost predicate HasGroup(groups: seq<Group>, configuration: Json) {
    exists i :: 0 <= i < |groups| && groups[i].configuration == configuration
  }

  ghost predicate IsView(records: seq<Record>, setup: Setup, configuration: Json) {
    exists r :: r in records && View(r, setup) == configuration
  }

  /** Appending a record of another view leaves a group alone; one of its own view adds the node. */
  function Joined(g: Group, r: Record): Group {
    match r.status
    case Ready => g.(nodes := g.nodes + [r.node], passed := g.passed + [r.node])
    case Blocked => g.(nodes := g.nodes + [r.node], failed := g.failed + [r.node])
    case Incomplete => g.(nodes := g.nodes + [r.node], incomplete := g.incomplete + [r.node])
  }

  lemma GroupGrows(g: Group, records: seq<Record>, r: Record, setup: Setup)
    requires GroupIs(g, records, setup)
    ensures GroupIs(if View(r, setup) == g.configuration then Joined(g, r) else g, records + [r], setup)
  {
    hide View;
    var all := records + [r];
    assert all[..|all| - 1] == records;
  }

  lemma {:induction false} NobodyWith(records: seq<Record>, setup: Setup, configuration: Json, statuses: set<Status>)
    requires !IsView(records, setup, configuration)
    ensures NodesWith(records, setup, configuration, statuses) == []
  {
    hide View;
    if records != [] {
      var n := |records| - 1;
      assert records[n] in records;
      forall r | r in records[..n] ensures View(r, setup) != configuration { assert r in records; }
      NobodyWith(records[..n], setup, configuration, statuses);
    }
  }

  lemma FreshGroup(records: seq<Record>, setup: Setup, configuration: Json)
    requires !IsView(records, setup, configuration)
    ensures GroupIs(Group(configuration, [], [], [], []), records, setup)
  {
    NobodyWith(records, setup, configuration, ALL);
    NobodyWith(records, setup, configuration, {Ready});
    NobodyWith(records, setup, configuration, {Blocked});
    NobodyWith(records, setup, configuration, {Incomplete});
  }

  /** Position of the group whose key is this text, or |groups|. */
  method FindKey(groups: seq<Group>, key: string, setup: Setup) returns (i: nat)
    ensures i <= |groups| && (i < |groups| ==> setup.key(groups[i].configuration) == key)
    ensures forall k :: 0 <= k < i ==> setup.key(groups[k].configuration) != key
  {
    i := 0;
    while i < |groups| && setup.key(groups[i].configuration) != key
      invariant i <= |groups| && forall k :: 0 <= k < i ==> setup.key(groups[k].configuration) != key
    {
      i := i + 1;
    }
  }

  lemma KeepGroups(groups: seq<Group>, records: seq<Record>, r: Record, setup: Setup, i: nat)
    requires Grouped(groups, records, setup) && i < |groups| && groups[i].configuration == View(r, setup)
    ensures Grouped(groups[i := Joined(groups[i], r)], records + [r], setup)
  {
    hide View, GroupIs;
    var next, all := groups[i := Joined(groups[i], r)], records + [r];
    forall k | 0 <= k < |groups| ensures GroupIs(next[k], all, setup) && IsView(all, setup, next[k].configuration) {
      assert groups[k] in groups;
      GroupGrows(groups[k], records, r, setup);
      var s :| s in records && View(s, setup) == groups[k].configuration;
      assert s in all;
    }
    forall s | s in all ensures HasGroup(next, View(s, setup)) {
      var k :| 0 <= k < |groups| && groups[k].configuration == View(s, setup);
      assert next[k].configuration == View(s, setup);
    }
  }

  lemma AddGroup(groups: seq<Group>, records: seq<Record>, r: Record, setup: Setup)
    requires Grouped(groups, records, setup)
    requires forall k :: 0 <= k < |groups| ==> groups[k].configuration != View(r, setup)
    ensures Grouped(groups + [Joined(Group(View(r, setup), [], [], [], []), r)], records + [r], setup)
  {
    hide View, GroupIs;
    var new_ := Joined(Group(View(r, setup), [], [], [], []), r);
    var next, all := groups + [new_], records + [r];
    assert !IsView(records, setup, View(r, setup)) by {
      forall s | s in records ensures View(s, setup) != View(r, setup) { assert HasGroup(groups, View(s, setup)); }
    }
    FreshGroup(records, setup, View(r, setup));
    GroupGrows(Group(View(r, setup), [], [], [], []), records, r, setup);
    assert r in all;
    forall k | 0 <= k < |groups| ensures GroupIs(next[k], all, setup) && IsView(all, setup, next[k].configuration) {
      assert groups[k] in groups;
      GroupGrows(groups[k], records, r, setup);
      var s :| s in records && View(s, setup) == groups[k].configuration;
      assert s in all;
    }
    forall s | s in all ensures HasGroup(next, View(s, setup)) {
      if s in records {
        var k :| 0 <= k < |groups| && groups[k].configuration == View(s, setup);
        assert next[k].configuration == View(s, setup);
      } else {
        assert next[|groups|].configuration == View(s, setup);
      }
    }
  }

  /** The grouping loop. */
  method BuildGroups(records: seq<Record>, setup: Setup) returns (groups: seq<Group>)
    requires Sound(setup)
    ensures Grouped(groups, records, setup)
  {
    hide View, Grouped;
    groups := [];
    NoGroups(setup);
    assert records[..0] == [];
    for n := 0 to |records|
      invariant Grouped(groups, records[..n], setup)
    {
      var r := records[n];
      assert records[..n + 1] == records[..n] + [r];
      var configuration := View(r, setup);
      var i := FindKey(groups, setup.key(configuration), setup);
      KeysDecide(groups, records[..n], r, setup);
      if i < |groups| {
        KeepGroups(groups, records[..n], r, setup, i);
        groups := groups[i := Joined(groups[i], r)];
      } else {
        AddGroup(groups, records[..n], r, setup);
        groups := groups + [Joined(Group(configuration, [], [], [], []), r)];
      }
    }
    assert records[..|records|] == records;
  }

  lemma NoGroups(setup: Setup)
    ensures Grouped([], [], setup)
  {
  }

  lemma KeysDecide(groups: seq<Group>, records: seq<Record>, r: Record, setup: Setup)
    requires Sound(setup)
    requires Grouped(groups, records, setup)
    ensures forall k :: 0 <= k < |groups| ==>
              (setup.key(groups[k].configuration) == setup.key(View(r, setup)) <==>
               groups[k].configuration == View(r, setup))
  {
    hide View;
    forall k | 0 <= k < |groups|
      ensures setup.key(groups[k].configuration) == setup.key(View(r, setup))
              <==> groups[k].configuration == View(r, setup)
    {
      assert groups[k] in groups;
      var s :| s in records && View(s, setup) == groups[k].configuration;
      KeyDecides(s, r, setup);
    }
  }

  datatype Comparison = Different | Unverified | SameObserved

  /** Python's `==` on the views of two records. */
  ghost predicate EqualViews(r: Record, s: Record, setup: Setup) {
    PyEqual(View(r, setup), View(s, setup))
  }

  /**
    The comparison status. Main result: DIFFERENT is reported iff the views of two records differ under Python's
    equality, and SAME iff two or more records with no missing evidence have views that are equal under it.
   */
  method Compare(records: seq<Record>, setup: Setup) returns (status: Comparison, groups: seq<Group>)
    requires Sound(setup)
    requires forall r :: r in records ==> ValidRecord(r)
    ensures Grouped(groups, records, setup)
    ensures status == Different <==> exists r, s :: r in records && s in records && !EqualViews(r, s, setup)
    ensures status == SameObserved <==>
              && |records| >= 2 && (forall r :: r in records ==> !Lacks(r.evidence, setup.scope))
              && forall r, s :: r in records && s in records ==> EqualViews(r, s, setup)
  {
    hide View, EqualViews, ValidRecord, Complete, Lacks, PyEqual;
    forall r | r in records ensures Complete(r.evidence, setup.scope) <==> !Lacks(r.evidence, setup.scope) {
      CompleteExact(r.evidence, setup.scope);
    }
    groups := BuildGroups(records, setup);
    ReferenceDecides(groups, records, setup);
    if exists i :: 0 <= i < |groups| && !PyEqual(groups[i].configuration, groups[0].configuration) {
      status := Different;
    } else if (exists i :: 0 <= i < |records| && !Complete(records[i].evidence, setup.scope)) || |records| < 2 {
      status := Unverified;
    } else {
      status := SameObserved;
    }
  }

  lemma ViewIsValid(r: Record, setup: Setup)
    requires ValidRecord(r)
    ensures Valid(View(r, setup))
  {
    hide Canonical;
    CanonicalValid(setup.order, r.platform);
    CanonicalValid(setup.order, r.resource);
  }

  /** Whichever group is the reference, some group differs from it iff two views differ. */
  lemma ReferenceDecides(groups: seq<Group>, records: seq<Record>, setup: Setup)
    requires Grouped(groups, records, setup) && forall r :: r in records ==> ValidRecord(r)
    ensures (exists i :: 0 <= i < |groups| && !PyEqual(groups[i].configuration, groups[0].configuration))
       <==> exists r, s :: r in records && s in records && !EqualViews(r, s, setup)
  {
    hide View, GroupIs, ValidRecord, PyEqual, Valid;
    if i :| 0 <= i < |groups| && !PyEqual(groups[i].configuration, groups[0].configuration) {
      assert groups[i] in groups && groups[0] in groups;
      var r :| r in records && View(r, setup) == groups[i].configuration;
      var s :| s in records && View(s, setup) == groups[0].configuration;
      assert !EqualViews(r, s, setup);
    }
    if r, s :| r in records && s in records && !EqualViews(r, s, setup) {
      var i :| 0 <= i < |groups| && groups[i].configuration == View(r, setup);
      var j :| 0 <= j < |groups| && groups[j].configuration == View(s, setup);
      assert groups[0] in groups;
      var t :| t in records && View(t, setup) == groups[0].configuration;
      ThroughReference(r, s, t, setup);
    }
  }

  lemma ThroughReference(r: Record, s: Record, t: Record, setup: Setup)
    requires ValidRecord(r) && ValidRecord(s) && ValidRecord(t) && !EqualViews(r, s, setup)
    ensures !EqualViews(r, t, setup) || !EqualViews(s, t, setup)
  {
    hide View, ValidRecord, PyEqual, Valid;
    ViewIsValid(s, setup);
    ViewIsValid(t, setup);
    if EqualViews(r, t, setup) && EqualViews(s, t, setup) {
      Symmetric(View(s, setup), View(t, setup));
      Transitive(View(r, setup), View(t, setup), View(s, setup));
    }
  }

  /** There is more than one group iff two records' selected values differ by more than reordering. */
  lemma GroupCount(groups: seq<Group>, records: seq<Record>, setup: Setup)
    requires Sound(setup)
    requires Grouped(groups, records, setup) && forall r :: r in records ==> ValidRecord(r)
    ensures |groups| > 1 <==> exists r, s :: r in records && s in records && !SameView(r, s, setup)
  {
    hide View, GroupIs, SameView, ValidRecord;
    if |groups| > 1 {
      assert groups[1] in groups && groups[0] in groups;
      var r :| r in records && View(r, setup) == groups[1].configuration;
      var s :| s in records && View(s, setup) == groups[0].configuration;
      assert groups[0].configuration != groups[1].configuration;
      ViewsDecide(r, s, setup);
    }
    if r, s :| r in records && s in records && !SameView(r, s, setup) {
      ViewsDecide(r, s, setup);
      var i :| 0 <= i < |groups| && groups[i].configuration == View(r, setup);
      var j :| 0 <= j < |groups| && groups[j].configuration == View(s, setup);
      assert i != j;
    }
  }

  /** Two records whose selected values differ by more than reordering, but only in equal numbers. */
  ghost predicate Hidden(r: Record, s: Record, setup: Setup) {
    !SameView(r, s, setup) && EqualViews(r, s, setup)
  }

  /**
    Main result: having more than one group and being DIFFERENT are the same thing if and only if two views really
    differ, or no two records differ only in equal numbers.
   */
  lemma StatusFitsGroups(groups: seq<Group>, records: seq<Record>, setup: Setup)
    requires Sound(setup)
    requires Grouped(groups, records, setup) && forall r :: r in records ==> ValidRecord(r)
    ensures (|groups| > 1 <==> exists r, s :: r in records && s in records && !EqualViews(r, s, setup))
       <==> (exists r, s :: r in records && s in records && !EqualViews(r, s, setup))
            || !exists r, s :: r in records && s in records && Hidden(r, s, setup)
  {
    hide GroupIs, SameView, ValidRecord, EqualViews, Grouped;
    GroupCount(groups, records, setup);
    forall r, s | r in records && s in records && SameView(r, s, setup) ensures EqualViews(r, s, setup) {
      SameIsEqual(r, s, setup);
    }
    if r, s :| r in records && s in records && !SameView(r, s, setup) {
      assert EqualViews(r, s, setup) ==> Hidden(r, s, setup);
    }
  }

  lemma SameIsEqual(r: Record, s: Record, setup: Setup)
    requires Sound(setup) && ValidRecord(r) && ValidRecord(s) && SameView(r, s, setup)
    ensures EqualViews(r, s, setup)
  {
    hide View, SameView, ValidRecord, PyEqual;
    ViewsDecide(r, s, setup);
    Reflexive(View(r, setup));
  }

  /** Main result: records without truth values and floating-point numbers hide nothing. */
  lemma PlainHidesNothing(r: Record, s: Record, setup: Setup)
    requires Sound(setup) && ValidRecord(r) && ValidRecord(s)
    requires Plain(r.platform) && Plain(r.resource) && Plain(s.platform) && Plain(s.resource)
    ensures !Hidden(r, s, setup)
  {
    hide View, SameView, PyEqual, Valid, Plain, Normal;
    ViewIsValid(r, setup);
    ViewIsValid(s, setup);
    ViewIsNormal(r, setup);
    ViewIsNormal(s, setup);
    ViewIsPlain(r, setup);
    ViewIsPlain(s, setup);
    PlainExact(setup.order, View(r, setup), View(s, setup));
    ViewsDecide(r, s, setup);
  }

  lemma ViewIsPlain(r: Record, setup: Setup)
    requires Plain(r.platform) && Plain(r.resource)
    ensures Plain(View(r, setup))
  {
    hide Canonical;
    CanonicalPlain(setup.order, r.platform);
    CanonicalPlain(setup.order, r.resource);
  }

  const READY_EVIDENCE := Evidence(true, PLATFORM_FIELDS, true, Some(1), [Device("K100", 65520, 65520)])

  lemma ReadyIsComplete(scope: Scope)
    ensures !Lacks(READY_EVIDENCE, scope)
  {
    CompleteExact(READY_EVIDENCE, scope);
  }

  function MibSection(mib: Atom): Json {
    Obj([Field("rocminfo_total_mib", Leaf(mib))])
  }

  /** A ready record with complete evidence and this memory size. */
  function WithMib(node: string, mib: Atom): Record {
    Record(node, Obj([]), MibSection(mib), Ready, READY_EVIDENCE)
  }

  lemma MibSectionIsNormal(d: Dump, mib: Atom)
    ensures Canonical(d, MibSection(mib)) == MibSection(mib) && Valid(MibSection(mib))
  {
    hide KeyLeq;
    var f := Field("rocminfo_total_mib", Leaf(mib));
    assert CanonicalIn(d, [f]) == [f];
    assert [f][1..] == [];
    assert Sort(KeyLeq, [f]) == [f];
  }

  lemma MibSections()
    ensures PyEqual(MibSection(MIB), MibSection(MIB_FLOAT)) && !Same(MibSection(MIB), MibSection(MIB_FLOAT))
  {
    EqualMib();
    hide EqualAtoms, MIB, MIB_FLOAT;
    var f, g := Field("rocminfo_total_mib", Leaf(MIB)), Field("rocminfo_total_mib", Leaf(MIB_FLOAT));
    assert PyEqual(f.value, g.value) && !Same(f.value, g.value);
    hide PyEqual, Same;
    OnlyFields(f, g);
    assert PyEqual(Obj([f]), Obj([g])) && !Same(Obj([f]), Obj([g])) by { OneField(f, g); }
  }

  lemma OnlyFields(f: Field, g: Field)
    requires f.key == g.key && PyEqual(f.value, g.value) && !Same(f.value, g.value)
    ensures EqualFields([f], [g]) && !SameFields([f], [g])
  {
    hide PyEqual, Same;
    IsPartner(f, [g], g);
    KeyOf([f], f);
    assert !HasSame(f, [g]);
    assert f in [f];
  }

  lemma OneField(f: Field, g: Field)
    ensures PyEqual(Obj([f]), Obj([g])) == EqualFields([f], [g]) && Same(Obj([f]), Obj([g])) == SameFields([f], [g])
  {
    hide EqualFields, SameFields;
  }

  lemma SectionsEqual(r: Record, s: Record, setup: Setup)
    requires PyEqual(Canonical(setup.order, r.platform), Canonical(setup.order, s.platform))
    requires PyEqual(Canonical(setup.order, r.resource), Canonical(setup.order, s.resource))
    ensures EqualViews(r, s, setup)
  {
    var xs, ys := View(r, setup).fields, View(s, setup).fields;
    assert PyEqual(View(r, setup), View(s, setup)) == EqualFields(xs, ys);
    hide Canonical, PyEqual;
    forall i | 0 <= i < |xs| ensures HasEqual(xs[i], ys) && HasKey(xs, ys[i].key) {
      IsPartner(xs[i], ys, ys[i]);
      KeyOf(xs, xs[i]);
    }
  }

  /** 65520 against 65520.0: two configuration groups, and yet the status is SAME. */
  lemma EqualNumbersHide(setup: Setup)
    requires setup.scope != PlatformOnly
    ensures var r, s := WithMib("a", MIB), WithMib("b", MIB_FLOAT);
            && ValidRecord(r) && !Lacks(r.evidence, setup.scope)
            && ValidRecord(s) && !Lacks(s.evidence, setup.scope)
            && Hidden(r, s, setup)
  {
    var r, s := WithMib("a", MIB), WithMib("b", MIB_FLOAT);
    assert Valid(r.platform);
    ReadyIsComplete(setup.scope);
    hide MIB, MIB_FLOAT, MibSection, PyEqual, Canonical, Same, Lacks;
    MibSectionIsNormal(setup.order, MIB);
    MibSectionIsNormal(setup.order, MIB_FLOAT);
    MibSections();
    Reflexive(Canonical(setup.order, r.platform));
    SectionsEqual(r, s, setup);
  }

  /** Main result: two records share a configuration group iff their selected values are equal up to reordering. */
  lemma SameGroup(groups: seq<Group>, records: seq<Record>, setup: Setup, r: Record, s: Record)
    requires Sound(setup)
    requires Grouped(groups, records, setup) && r in records && s in records && ValidRecord(r) && ValidRecord(s)
    ensures (exists g :: g in groups && g.configuration == View(r, setup) && g.configuration == View(s, setup))
       <==> SameView(r, s, setup)
  {
    hide View, GroupIs, SameView, ValidRecord;
    ViewsDecide(r, s, setup);
    var i :| 0 <= i < |groups| && groups[i].configuration == View(r, setup);
    assert groups[i] in groups;
  }
}
