/**
  The facts file of a group: candidates built from the published facts (`state_facts.candidate`)
  and published by compare-and-swap on the revision.
 */
module FactsHistory {
  import opened Wrappers

  datatype Status = Running | Pass | Warn | Fail | NA | Timeout | Cancelled | Blocked

  datatype Task = Task(stage: string, phase: string, token: string, item: string, iteration: string,
                       status: Status, cleanup: string, reason: string)

  /** A row of an evidence table; the rest of its columns are one payload. */
  datatype Evidence = Evidence(stage: string, token: string, payload: string)

  datatype Table = Nodes | Cleanup | TimeoutRows | Logs | Execution | Ib

  /** Published facts: task rows, and the six tables that are only appended to. */
  datatype Facts = Facts(revision: nat, tasks: seq<Task>, evidence: map<Table, seq<Evidence>>)

  const FRESH := Facts(0, [], map[])

  /** What a finished task hands over: its end state and the payloads for every table. */
  datatype Handoff = Handoff(status: Status, cleanup: string, reason: string, payloads: map<Table, seq<string>>)

  datatype Kind = Start | Finish(handoff: Handoff) | BlockedTask(why: string)

  datatype Args = Args(stage: string, phase: string, token: string, item: string, iteration: string,
                       expectedRevision: nat, kind: Kind)

  datatype Refusal = RevisionMismatch | ImmutableOrForeign | NothingRunning | NotTerminal

  function RowsOf(rows: seq<Evidence>, stage: string): (r: seq<Evidence>)
    ensures forall x :: x in r <==> x in rows && x.stage == stage
  {
    if rows == [] then [] else
      assert forall x :: x in rows <==> x == rows[0] || x in rows[1..];
      if rows[0].stage == stage then [rows[0]] + RowsOf(rows[1..], stage) else RowsOf(rows[1..], stage)
  }

  function TableOf(f: Facts, t: Table): seq<Evidence> {
    if t in f.evidence then f.evidence[t] else []
  }

  function TasksOf(tasks: seq<Task>, stage: string): (r: seq<Task>)
    ensures forall x :: x in r <==> x in tasks && x.stage == stage
  {
    if tasks == [] then [] else
      assert forall x :: x in tasks <==> x == tasks[0] || x in tasks[1..];
      if tasks[0].stage == stage then [tasks[0]] + TasksOf(tasks[1..], stage) else TasksOf(tasks[1..], stage)
  }

  function Others(tasks: seq<Task>, stage: string): (r: seq<Task>)
    ensures forall x :: x in r <==> x in tasks && x.stage != stage
  {
    if tasks == [] then [] else
      assert forall x :: x in tasks <==> x == tasks[0] || x in tasks[1..];
      if tasks[0].stage != stage then [tasks[0]] + Others(tasks[1..], stage) else Others(tasks[1..], stage)
  }

  function Stamped(payloads: seq<string>, stage: string, token: string): (r: seq<Evidence>)
    ensures |r| == |payloads| && forall x :: x in r ==> x.stage == stage && x.token == token
  {
    if payloads == [] then [] else [Evidence(stage, token, payloads[0])] + Stamped(payloads[1..], stage, token)
  }

  /** `add_table` for every table the handoff fills. */
  function WithEvidence(f: Facts, a: Args, h: Handoff): map<Table, seq<Evidence>> {
    map t | t in f.evidence.Keys + h.payloads.Keys ::
      TableOf(f, t) + (if t in h.payloads then Stamped(h.payloads[t], a.stage, a.token) else [])
  }

  function NewTask(a: Args): Task {
    match a.kind
    case Start => Task(a.stage, a.phase, a.token, a.item, a.iteration, Running, "NOT_STARTED", "RUNNING")
    case Finish(h) => Task(a.stage, a.phase, a.token, a.item, a.iteration, h.status, h.cleanup, h.reason)
    case BlockedTask(why) => Task(a.stage, a.phase, a.token, a.item, a.iteration, Blocked, "UNCONFIRMED", why)
  }

  function Refused(f: Facts, a: Args): Option<Refusal> {
    var previous := TasksOf(f.tasks, a.stage);
    if f.revision != a.expectedRevision then Some(RevisionMismatch)
    else if |previous| > 1 || (|previous| == 1 && (previous[0].status != Running || previous[0].token != a.token))
    then Some(ImmutableOrForeign)
    else if a.kind.Finish? && previous == [] then Some(NothingRunning)
    else if a.kind.Finish? && a.kind.handoff.status in {Running, Blocked} then Some(NotTerminal)
    else None
  }

  /** `candidate`: the next facts, or why there are none. */
  function Candidate(f: Facts, a: Args): Result<Facts, Refusal> {
    var refused := Refused(f, a);
    if refused.Some? then Err(refused.value)
    else Ok(Facts(f.revision + 1, Others(f.tasks, a.stage) + [NewTask(a)],
                  if a.kind.Finish? then WithEvidence(f, a, a.kind.handoff) else f.evidence))
  }

  // ---------------------------------------------------------------- builders and the publisher

  /** A built candidate waiting for the publisher. */
  datatype Pending = Pending(args: Args, data: Facts)

  /** Everything ever published, and every candidate ever built. */
  datatype System = System(history: seq<Facts>, pending: seq<Pending>)

  const START := System([FRESH], [])

  datatype Event = Build(args: Args) | Publish(index: nat)

  function Current(s: System): Facts
    requires s.history != []
  {
    s.history[|s.history| - 1]
  }

  /**
    Any number of builders read whatever is published at that moment; the publisher may later take any
    candidate, fresh or stale, and renames it into place only if its expected revision is still current.
   */
  function Step(s: System, e: Event): (r: System)
    requires s.history != []
    ensures r.history != []
  {
    match e
    case Build(args) =>
      (match Candidate(Current(s), args)
       case Ok(data) => s.(pending := s.pending + [Pending(args, data)])
       case Err(_) => s)
    case Publish(i) =>
      if i < |s.pending| && s.pending[i].args.expectedRevision == Current(s).revision
      then s.(history := s.history + [s.pending[i].data]) else s
  }

  function Run(s: System, events: seq<Event>): (r: System)
    requires s.history != []
    ensures r.history != []
    decreases |events|
  {
    if events == [] then s else Run(Step(s, events[0]), events[1..])
  }

  /** `next` was built from `prev` by some candidate builder. */
  ghost predicate Successor(prev: Facts, next: Facts, a: Args) {
    Candidate(prev, a) == Ok(next)
  }

  ghost predicate BuiltFrom(prev: Facts, next: Facts) {
    exists a :: Successor(prev, next, a)
  }

  /** The revision numbers the history, every entry was built from the one before, and so was every candidate. */
  ghost predicate Inv(s: System) {
    && s.history != [] && s.history[0] == FRESH
    && (forall k :: 0 <= k < |s.history| ==> s.history[k].revision == k)
    && (forall k :: 0 <= k < |s.history| - 1 ==> BuiltFrom(s.history[k], s.history[k + 1]))
    && (forall i :: 0 <= i < |s.pending| ==>
          var p := s.pending[i];
          p.args.expectedRevision < |s.history| && Successor(s.history[p.args.expectedRevision], p.data, p.args))
  }

  lemma StepKeeps(s: System, e: Event)
    requires Inv(s)
    ensures Inv(Step(s, e)) && s.history <= Step(s, e).history
  {
    hide Candidate;
    var next := Step(s, e);
    match e {
      case Build(args) =>
        var n := |s.history| - 1;
        if Candidate(Current(s), args).Ok? {
          CandidateRevision(Current(s), args);
          assert Successor(s.history[n], Candidate(Current(s), args).value, args);
        }
      case Publish(i) =>
        if next != s {
          var p := s.pending[i];
          CandidateRevision(s.history[p.args.expectedRevision], p.args);
          assert BuiltFrom(s.history[|s.history| - 1], p.data);
        }
    }
  }

  lemma CandidateRevision(f: Facts, a: Args)
    requires Candidate(f, a).Ok?
    ensures a.expectedRevision == f.revision && Candidate(f, a).value.revision == f.revision + 1
  {
    hide TasksOf, Others, WithEvidence;
  }

  lemma {:induction false} RunKeeps(s: System, events: seq<Event>)
    requires Inv(s) && s.history != []
    ensures Inv(Run(s, events)) && s.history <= Run(s, events).history
    decreases |events|
  {
    hide Inv, Step;
    if events != [] {
      StepKeeps(s, events[0]);
      RunKeeps(Step(s, events[0]), events[1..]);
    }
  }

  /** A run that is continued is one run. */
  lemma {:induction false} RunAppend(s: System, a: seq<Event>, b: seq<Event>)
    requires s.history != []
    ensures Run(s, a + b) == Run(Run(s, a), b)
    decreases |a|
  {
    hide Step;
    if a == [] {
      assert a + b == b;
    } else {
      assert (a + b)[1..] == a[1..] + b;
      RunAppend(Step(s, a[0]), a[1..], b);
    }
  }

  lemma StartInv()
    ensures Inv(START)
  {
  }

  // ---------------------------------------------------------------- one published step

  lemma {:induction false} RowsOfAppend(a: seq<Evidence>, b: seq<Evidence>, stage: string)
    ensures RowsOf(a + b, stage) == RowsOf(a, stage) + RowsOf(b, stage)
  {
    if a == [] {
      assert a + b == b;
    } else {
      assert (a + b)[1..] == a[1..] + b;
      RowsOfAppend(a[1..], b, stage);
    }
  }

  lemma {:induction false} RowsOfOther(rows: seq<Evidence>, stage: string)
    requires forall r :: r in rows ==> r.stage != stage
    ensures RowsOf(rows, stage) == []
  {
    if rows != [] {
      assert rows[0] in rows;
      RowsOfOther(rows[1..], stage);
    }
  }

  lemma {:induction false} TasksOfAppend(a: seq<Task>, b: seq<Task>, stage: string)
    ensures TasksOf(a + b, stage) == TasksOf(a, stage) + TasksOf(b, stage)
  {
    if a == [] {
      assert a + b == b;
    } else {
      assert (a + b)[1..] == a[1..] + b;
      TasksOfAppend(a[1..], b, stage);
    }
  }

  lemma {:induction false} TasksOfOthers(tasks: seq<Task>, stage: string, other: string)
    ensures TasksOf(Others(tasks, stage), other) == if stage == other then [] else TasksOf(tasks, other)
  {
    if tasks != [] {
      TasksOfOthers(tasks[1..], stage, other);
      if tasks[0].stage != stage {
        TasksOfAppend([tasks[0]], Others(tasks[1..], stage), other);
        OneTask(tasks[0], other);
      }
    }
  }

  /** What a row says of the task that the arguments describe. */
  ghost predicate RowSays(a: Args, row: Task) {
    && row.stage == a.stage && row.token == a.token
    && row.phase == a.phase && row.item == a.item && row.iteration == a.iteration
    && (a.kind.Start? ==> row.status == Running && row.cleanup == "NOT_STARTED" && row.reason == "RUNNING")
    && (a.kind.Finish? ==> var h := a.kind.handoff;
                           row.status == h.status && row.cleanup == h.cleanup && row.reason == h.reason)
    && (a.kind.BlockedTask? ==> row.status == Blocked && row.cleanup == "UNCONFIRMED" && row.reason == a.kind.why)
  }

  /** The rows of `next` are those of `f`, but the arguments' stage has one row, which says what they say. */
  ghost predicate OneRowReplaced(f: Facts, a: Args, next: Facts) {
    && |TasksOf(next.tasks, a.stage)| == 1 && RowSays(a, TasksOf(next.tasks, a.stage)[0])
    && forall stage :: stage != a.stage ==> TasksOf(next.tasks, stage) == TasksOf(f.tasks, stage)
  }

  /** The task rows after a step: the step's own stage has the new row, all others are untouched. */
  lemma StepTasks(f: Facts, a: Args, next: Facts)
    requires Successor(f, next, a)
    ensures OneRowReplaced(f, a, next)
  {
    hide TasksOf, NewTask, RowSays, Candidate;
    forall stage ensures TasksOf(next.tasks, stage) == if stage == a.stage then [NewTask(a)]
        else TasksOf(f.tasks, stage)
    {
      TasksAfter(f, a, next, stage);
    }
    NewTaskSays(a);
  }

  lemma NewTaskSays(a: Args)
    ensures RowSays(a, NewTask(a))
  {
  }

  lemma TasksAfter(f: Facts, a: Args, next: Facts, stage: string)
    requires Successor(f, next, a)
    ensures TasksOf(next.tasks, stage) == if stage == a.stage then [NewTask(a)] else TasksOf(f.tasks, stage)
  {
    hide TasksOf, Others, WithEvidence;
    TasksOfAppend(Others(f.tasks, a.stage), [NewTask(a)], stage);
    TasksOfOthers(f.tasks, a.stage, stage);
    OneTask(NewTask(a), stage);
    assert NewTask(a).stage == a.stage;
    assert [] + [NewTask(a)] == [NewTask(a)];
    assert TasksOf(f.tasks, stage) + [] == TasksOf(f.tasks, stage);
  }

  lemma OneTask(t: Task, stage: string)
    ensures TasksOf([t], stage) == if t.stage == stage then [t] else []
  {
    assert TasksOf([], stage) == [];
  }

  /** The evidence after a step: only a finish appends, and only rows of its own stage. */
  lemma StepEvidence(f: Facts, a: Args, next: Facts, t: Table, stage: string)
    requires Successor(f, next, a)
    ensures TableOf(f, t) <= TableOf(next, t)
    ensures !a.kind.Finish? ==> TableOf(next, t) == TableOf(f, t)
    ensures stage != a.stage ==> RowsOf(TableOf(next, t), stage) == RowsOf(TableOf(f, t), stage)
  {
    hide TasksOf, Others, RowsOf;
    if a.kind.Finish? {
      var added := if t in a.kind.handoff.payloads then Stamped(a.kind.handoff.payloads[t], a.stage, a.token) else [];
      assert TableOf(next, t) == TableOf(f, t) + added by {
        if t !in f.evidence && t !in a.kind.handoff.payloads { assert [] + [] == added; }
      }
      RowsOfAppend(TableOf(f, t), added, stage);
      if stage != a.stage { RowsOfOther(added, stage); }
    }
  }

  // ---------------------------------------------------------------- the builder as it runs

  /** The published revision is the expected one, and the stage has no row or a RUNNING row with this token. */
  ghost predicate MayWrite(f: Facts, a: Args) {
    && f.revision == a.expectedRevision && |TasksOf(f.tasks, a.stage)| <= 1
    && (forall x :: x in f.tasks && x.stage == a.stage ==> x.status == Running && x.token == a.token)
    && (a.kind.Finish? ==>
          (exists x :: x in f.tasks && x.stage == a.stage) && a.kind.handoff.status !in {Running, Blocked})
  }

  /** What a task hands over for a table. */
  function Payloads(a: Args, t: Table): seq<string> {
    if a.kind.Finish? && t in a.kind.handoff.payloads then a.kind.handoff.payloads[t] else []
  }

  /** One row for each payload, in order and with the task's stage and token, behind the rows that were there. */
  ghost predicate PayloadsAppended(a: Args, t: Table, before: seq<Evidence>, after: seq<Evidence>) {
    && |after| == |before| + |Payloads(a, t)|
    && (forall i :: 0 <= i < |before| ==> after[i] == before[i])
    && forall i :: 0 <= i < |Payloads(a, t)| ==>
         var row := after[|before| + i];
         row.stage == a.stage && row.token == a.token && row.payload == Payloads(a, t)[i]
  }

  lemma {:induction false} StampedAre(payloads: seq<string>, stage: string, token: string)
    ensures forall i :: 0 <= i < |payloads| ==> Stamped(payloads, stage, token)[i].payload == payloads[i]
  {
    if payloads != [] {
      StampedAre(payloads[1..], stage, token);
    }
  }

  lemma MayWriteExact(f: Facts, a: Args)
    ensures MayWrite(f, a) <==> Candidate(f, a).Ok?
  {
    hide Others, WithEvidence;
    var previous := TasksOf(f.tasks, a.stage);
    if previous != [] { assert previous[0] in previous; }
    assert forall x :: x in previous <==> x in f.tasks && x.stage == a.stage;
  }

  lemma EvidenceAdded(f: Facts, a: Args, next: Facts, t: Table)
    requires Successor(f, next, a)
    ensures PayloadsAppended(a, t, TableOf(f, t), TableOf(next, t))
  {
    hide TasksOf, Others, Stamped;
    var added := Stamped(Payloads(a, t), a.stage, a.token);
    StampedAre(Payloads(a, t), a.stage, a.token);
    assert TableOf(next, t) == TableOf(f, t) + added;
    forall i | 0 <= i < |added| ensures (TableOf(f, t) + added)[|TableOf(f, t)| + i] == added[i] {
      assert added[i] in added;
    }
  }

  /**
    `candidate`: checks, then updates of a copy of the published data. The stage's one row is replaced, every
    other row stays, evidence is only appended, and the revision rises by one.
   */
  method BuildCandidate(published: Option<Facts>, a: Args) returns (r: Result<Facts, Refusal>)
    ensures var f := if published.Some? then published.value else FRESH;
            && r == Candidate(f, a)
            && (r.Ok? <==> MayWrite(f, a))
            && (r.Ok? ==>
                 && r.value.revision == f.revision + 1
                 && OneRowReplaced(f, a, r.value)
                 && forall t :: PayloadsAppended(a, t, TableOf(f, t), TableOf(r.value, t)))
  {
    hide TasksOf, Others, WithEvidence, PayloadsAppended, OneRowReplaced, TableOf, MayWrite;
    var data := if published.Some? then published.value else FRESH;
    ghost var f := data;
    MayWriteExact(f, a);
    if data.revision != a.expectedRevision {
      return Err(RevisionMismatch);
    }
    var previous := TasksOf(data.tasks, a.stage);
    if |previous| > 1 || (|previous| == 1 && (previous[0].status != Running || previous[0].token != a.token)) {
      return Err(ImmutableOrForeign);
    }
    if a.kind.Finish? {
      if previous == [] {
        return Err(NothingRunning);
      }
      if a.kind.handoff.status in {Running, Blocked} {
        return Err(NotTerminal);
      }
      data := data.(evidence := WithEvidence(data, a, a.kind.handoff));
    }
    data := data.(tasks := Others(data.tasks, a.stage) + [NewTask(a)]);
    data := data.(revision := data.revision + 1);
    assert Successor(f, data, a);
    StepTasks(f, a, data);
    forall t ensures PayloadsAppended(a, t, TableOf(f, t), TableOf(data, t)) {
      EvidenceAdded(f, a, data, t);
    }
    r := Ok(data);
  }

  // ---------------------------------------------------------------- over a whole history

  /** A sequence of facts each built from the one before, starting fresh: any published history. */
  ghost predicate History(h: seq<Facts>) {
    && h != [] && h[0] == FRESH
    && (forall k :: 0 <= k < |h| ==> h[k].revision == k)
    && forall k :: 0 <= k < |h| - 1 ==> BuiltFrom(h[k], h[k + 1])
  }

  /** Main result: every run of builders and publisher, in any interleaving, publishes such a history. */
  lemma PublishedHistory(events: seq<Event>)
    ensures History(Run(START, events).history)
  {
    hide Step, BuiltFrom, Successor;
    StartInv();
    RunKeeps(START, events);
  }

  /** Main result: each stage has at most one task row, at every revision. */
  lemma {:induction false} OneTaskPerStage(h: seq<Facts>, k: nat, stage: string)
    requires History(h) && k < |h|
    ensures |TasksOf(h[k].tasks, stage)| <= 1
    decreases k
  {
    hide TasksOf, Successor;
    if k == 0 {
      NoTasks(stage);
    } else {
      OneTaskPerStage(h, k - 1, stage);
      assert BuiltFrom(h[k - 1], h[k - 1 + 1]);
      var a :| Successor(h[k - 1], h[k], a);
      StepTasks(h[k - 1], a, h[k]);
    }
  }

  lemma NoTasks(stage: string)
    ensures TasksOf([], stage) == []
  {
  }

  /** One step: a stage's row keeps its token, and a row that is not running stays as it is. */
  lemma StepRow(f: Facts, next: Facts, stage: string)
    requires BuiltFrom(f, next) && |TasksOf(f.tasks, stage)| == 1
    ensures |TasksOf(next.tasks, stage)| == 1
    ensures TasksOf(next.tasks, stage)[0].token == TasksOf(f.tasks, stage)[0].token
    ensures TasksOf(f.tasks, stage)[0].status != Running ==> TasksOf(next.tasks, stage) == TasksOf(f.tasks, stage)
  {
    var a :| Successor(f, next, a);
    StepTasks(f, a, next);
    hide TasksOf, Others, WithEvidence;
    assert Refused(f, a) == None;
  }

  /** Main result: once a stage has a row it keeps it, with its token; a terminal row is never altered. */
  lemma {:induction false} RowsPersist(h: seq<Facts>, i: nat, j: nat, stage: string)
    requires History(h) && i <= j < |h| && TasksOf(h[i].tasks, stage) != []
    ensures |TasksOf(h[i].tasks, stage)| == 1 && |TasksOf(h[j].tasks, stage)| == 1
    ensures TasksOf(h[j].tasks, stage)[0].token == TasksOf(h[i].tasks, stage)[0].token
    ensures TasksOf(h[i].tasks, stage)[0].status != Running ==> TasksOf(h[j].tasks, stage) == TasksOf(h[i].tasks, stage)
    decreases j - i
  {
    hide TasksOf, BuiltFrom;
    OneTaskPerStage(h, i, stage);
    assert |TasksOf(h[i].tasks, stage)| == 1;
    if i < j {
      RowsPersist(h, i, j - 1, stage);
      assert BuiltFrom(h[j - 1], h[j - 1 + 1]);
      StepRow(h[j - 1], h[j], stage);
    }
  }

  /** The evidence of a stage may exist only once its task is terminal. */
  ghost predicate EvidenceFinal(f: Facts, stage: string) {
    forall t :: RowsOf(TableOf(f, t), stage) != [] ==>
      |TasksOf(f.tasks, stage)| == 1 && TasksOf(f.tasks, stage)[0].status != Running
  }

  lemma StepFinal(f: Facts, next: Facts, stage: string)
    requires BuiltFrom(f, next) && EvidenceFinal(f, stage)
    ensures EvidenceFinal(next, stage)
  {
    hide TasksOf, RowsOf, Others, WithEvidence;
    var a :| Successor(f, next, a);
    StepTasks(f, a, next);
    forall t | RowsOf(TableOf(next, t), stage) != []
      ensures |TasksOf(next.tasks, stage)| == 1 && TasksOf(next.tasks, stage)[0].status != Running
    {
      StepEvidence(f, a, next, t, stage);
      assert Refused(f, a) == None;
    }
  }

  lemma {:induction false} AlwaysFinal(h: seq<Facts>, k: nat, stage: string)
    requires History(h) && k < |h|
    ensures EvidenceFinal(h[k], stage)
    decreases k
  {
    hide EvidenceFinal, BuiltFrom;
    if k == 0 {
      FreshFinal(stage);
    } else {
      AlwaysFinal(h, k - 1, stage);
      assert BuiltFrom(h[k - 1], h[k - 1 + 1]);
      StepFinal(h[k - 1], h[k], stage);
    }
  }

  lemma FreshFinal(stage: string)
    ensures EvidenceFinal(FRESH, stage)
  {
  }

  /** A terminal stage's evidence does not change in a step. */
  lemma StepFrozen(f: Facts, next: Facts, t: Table, stage: string)
    requires BuiltFrom(f, next)
    requires |TasksOf(f.tasks, stage)| == 1 && TasksOf(f.tasks, stage)[0].status != Running
    ensures RowsOf(TableOf(next, t), stage) == RowsOf(TableOf(f, t), stage)
  {
    hide TasksOf, RowsOf, Others, WithEvidence;
    var a :| Successor(f, next, a);
    assert Refused(f, a) == None;
    StepEvidence(f, a, next, t, stage);
  }

  /**
    Main result: a stage's evidence rows are appended at most once. As soon as any of its rows exist,
    or its task is terminal, its rows in every table are final.
   */
  lemma {:induction false} EvidenceOnce(h: seq<Facts>, i: nat, j: nat, t: Table, stage: string)
    requires History(h) && i <= j < |h|
    requires RowsOf(TableOf(h[i], t), stage) != []
          || (TasksOf(h[i].tasks, stage) != [] && TasksOf(h[i].tasks, stage)[0].status != Running)
    ensures RowsOf(TableOf(h[j], t), stage) == RowsOf(TableOf(h[i], t), stage)
    decreases j - i
  {
    hide TasksOf, RowsOf, BuiltFrom;
    if i < j {
      EvidenceOnce(h, i, j - 1, t, stage);
      AlwaysFinal(h, i, stage);
      RowsPersist(h, i, j - 1, stage);
      assert BuiltFrom(h[j - 1], h[j - 1 + 1]);
      StepFrozen(h[j - 1], h[j], t, stage);
    }
  }

  /** Main result: no evidence row is ever removed or reordered. */
  lemma {:induction false} EvidenceOnlyGrows(h: seq<Facts>, i: nat, j: nat, t: Table)
    requires History(h) && i <= j < |h|
    ensures TableOf(h[i], t) <= TableOf(h[j], t)
    decreases j - i
  {
    hide TableOf, Successor;
    if i < j {
      EvidenceOnlyGrows(h, i, j - 1, t);
      assert BuiltFrom(h[j - 1], h[j - 1 + 1]);
      var a :| Successor(h[j - 1], h[j], a);
      StepEvidence(h[j - 1], a, h[j], t, "");
    }
  }
}
