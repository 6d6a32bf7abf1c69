/** The cleanup evidence a finished task hands over, and the recyclable verdict (`finish`). */
module CleanupEvidence {
  import opened Wrappers

  /** A stop receipt printed by a node's guard. */
  datatype Guard = Guard(token: string, status: string, remaining: int, tombstone: bool, uncertain: bool)

  /** What a receipt line holds: a JSON object, null, which counts as no receipt, another JSON value, or no JSON. */
  datatype Receipt = Object(guard: Guard) | NullJson | OtherJson | Unparsable

  /** One node's line of an attempt; `receipts` are the receipt lines of its evidence file, none if there is no file. */
  datatype NodeRow = NodeRow(node: string, token: string, source: string, attempt: string,
                             exitCode: string, status: string, inside: bool, receipts: seq<Receipt>)

  /** One cleanup directory: its result handoff and its node lines. */
  datatype Attempt = Attempt(token: string, source: string, attempt: int, attemptText: string, completed: bool,
      rows: seq<NodeRow>)

  datatype TaskEnd = TaskEnd(cleanup: string, reason: string)

  const CONFIRMED := "CONFIRMED"

  datatype Rejected = Unclosed | NodesMismatch | SourceMismatch | Escaped | BadJson | NotObject
                    | ForeignToken | NoGuardEvidence
                    | NoAttempt | TaskNodeMismatch | TaskAttemptMismatch | Foreign

  // ---------------------------------------------------------------- what an accepted line proves

  /** Exit code 0 and one receipt, which says that this task was stopped with nothing left and nothing uncertain. */
  ghost predicate StopProof(row: NodeRow, token: string) {
    row.exitCode == "0" && row.receipts == [Object(Guard(token, "STOPPED", 0, true, false))]
  }

  /**
    The line is this task's and this attempt's, its evidence is inside, a single receipt is null or an object of
    this task, and it says CONFIRMED exactly with stop evidence.
   */
  ghost predicate Truthful(row: NodeRow, a: Attempt, token: string) {
    && row.token == token && row.source == a.source && row.attempt == a.attemptText && row.inside
    && Unparsable !in row.receipts
    && (forall r :: row.receipts == [r] ==> r == NullJson || (r.Object? && r.guard.token == token))
    && (row.status == "CONFIRMED" <==> StopProof(row, token))
  }

  // ---------------------------------------------------------------- how the code checks it

  predicate Stopped(row: NodeRow, token: string) {
    && row.exitCode == "0"
    && |row.receipts| == 1 && row.receipts[0].Object?
    && var g := row.receipts[0].guard;
       g.token == token && g.status == "STOPPED" && g.remaining == 0 && g.tombstone && !g.uncertain
  }

  function CheckRow(row: NodeRow, a: Attempt, token: string): Option<Rejected> {
    if row.token != token then Some(Foreign)
    else if row.source != a.source || row.attempt != a.attemptText then Some(SourceMismatch)
    else if !row.inside then Some(Escaped)
    else if exists i :: 0 <= i < |row.receipts| && row.receipts[i].Unparsable? then Some(BadJson)
    else if |row.receipts| == 1 && row.receipts[0].OtherJson? then Some(NotObject)
    else if |row.receipts| == 1 && row.receipts[0].Object? && row.receipts[0].guard.token != token
        then Some(ForeignToken)
    else if (row.status == CONFIRMED) != Stopped(row, token) then Some(NoGuardEvidence)
    else None
  }

  lemma StoppedExact(row: NodeRow, token: string)
    ensures Stopped(row, token) <==> StopProof(row, token)
  {
    if Stopped(row, token) {
      assert row.receipts == [row.receipts[0]];
    }
  }

  lemma RowExact(row: NodeRow, a: Attempt, token: string)
    ensures CheckRow(row, a, token) == None <==> Truthful(row, a, token)
  {
    hide Stopped, StopProof;
    StoppedExact(row, token);
    if |row.receipts| == 1 { assert row.receipts == [row.receipts[0]]; }
    if Unparsable in row.receipts { var i :| 0 <= i < |row.receipts| && row.receipts[i] == Unparsable; }
  }

  function NodesOf(rows: seq<NodeRow>): (nodes: seq<string>)
    ensures |nodes| == |rows| && forall i :: 0 <= i < |rows| ==> nodes[i] == rows[i].node
  {
    seq(|rows|, i requires 0 <= i < |rows| => rows[i].node)
  }

  /** An attempt that was closed, by this task, for exactly the planned nodes, with truthful lines. */
  ghost predicate GoodAttempt(a: Attempt, nodes: seq<string>, token: string) {
    && a.token == token && (a.source == "normal" || a.source == "fallback") && a.attempt >= 1 && a.completed
    && NodesOf(a.rows) == nodes
    && forall row :: row in a.rows ==> Truthful(row, a, token)
  }

  function AllRows(attempts: seq<Attempt>): seq<NodeRow> {
    if attempts == [] then [] else attempts[0].rows + AllRows(attempts[1..])
  }

  function SelectedSource(rows: seq<NodeRow>): string {
    if exists i :: 0 <= i < |rows| && rows[i].source == "normal" then "normal" else "fallback"
  }

  // ---------------------------------------------------------------- the checks as loops

  method CheckAttempt(a: Attempt, nodes: seq<string>, token: string) returns (r: Option<Rejected>)
    ensures r.None? <==> GoodAttempt(a, nodes, token)
  {
    hide CheckRow, Truthful;
    if a.token != token {
      return Some(Foreign);
    }
    if (a.source != "normal" && a.source != "fallback") || a.attempt < 1 || !a.completed {
      return Some(Unclosed);
    }
    if NodesOf(a.rows) != nodes {
      return Some(NodesMismatch);
    }
    for i := 0 to |a.rows|
      invariant forall k :: 0 <= k < i ==> Truthful(a.rows[k], a, token)
    {
      RowExact(a.rows[i], a, token);
      var problem := CheckRow(a.rows[i], a, token);
      if problem.Some? {
        assert a.rows[i] in a.rows;
        return problem;
      }
    }
    r := None;
  }

  method CollectAttempts(attempts: seq<Attempt>, nodes: seq<string>, token: string)
      returns (r: Result<seq<NodeRow>, Rejected>)
    ensures r.Ok? <==> AllRows(attempts) != [] && forall a :: a in attempts ==> GoodAttempt(a, nodes, token)
    ensures r.Ok? ==> r.value == AllRows(attempts)
  {
    hide GoodAttempt;
    var rows: seq<NodeRow> := [];
    assert attempts[0..] == attempts;
    for i := 0 to |attempts|
      invariant forall k :: 0 <= k < i ==> GoodAttempt(attempts[k], nodes, token)
      invariant rows + AllRows(attempts[i..]) == AllRows(attempts)
    {
      assert attempts[i..][1..] == attempts[i + 1..];
      var problem := CheckAttempt(attempts[i], nodes, token);
      if problem.Some? {
        assert attempts[i] in attempts;
        return Err(problem.value);
      }
      rows := rows + attempts[i].rows;
    }
    if rows == [] {
      return Err(NoAttempt);
    }
    r := Ok(rows);
  }

  /** The cleanup part of `finish`: the verdict says whether the workspace may be recycled. */
  method JudgeCleanup(attempts: seq<Attempt>, nodes: seq<string>, token: string, nodeCleanup: seq<string>,
      task: TaskEnd)
      returns (r: Result<bool, Rejected>)
    ensures r.Ok? <==>
              && AllRows(attempts) != [] && (forall a :: a in attempts ==> GoodAttempt(a, nodes, token))
              && (task.cleanup == "CONFIRMED" ==> Confirmed(attempts, nodeCleanup))
    ensures r.Ok? ==> r.value == (task.cleanup == "CONFIRMED" && task.reason != "LOG_WRITE_FAILED")
    ensures r == Ok(true) ==> AllStopped(attempts, nodes, token)
  {
    hide GoodAttempt, AllRows, AllStopped;
    var collected := CollectAttempts(attempts, nodes, token);
    if collected.Err? {
      return Err(collected.error);
    }
    var rows := collected.value;
    if task.cleanup == CONFIRMED {
      if exists i :: 0 <= i < |nodeCleanup| && nodeCleanup[i] != CONFIRMED {
        return Err(TaskNodeMismatch);
      }
      var source := SelectedSource(rows);
      if exists i :: 0 <= i < |rows| && rows[i].source == source && rows[i].status != CONFIRMED {
        return Err(TaskAttemptMismatch);
      }
      ConfirmedMeansStopped(attempts, nodes, token, nodeCleanup);
    }
    r := Ok(task.cleanup == CONFIRMED && task.reason != "LOG_WRITE_FAILED");
  }

  ghost predicate Confirmed(attempts: seq<Attempt>, nodeCleanup: seq<string>) {
    var rows := AllRows(attempts);
    && (forall i :: 0 <= i < |nodeCleanup| ==> nodeCleanup[i] == "CONFIRMED")
    && forall i :: 0 <= i < |rows| && rows[i].source == SelectedSource(rows) ==> rows[i].status == "CONFIRMED"
  }

  // ---------------------------------------------------------------- what the verdict rests on

  lemma {:induction false} RowOfAttempt(attempts: seq<Attempt>, a: Attempt, row: NodeRow)
    requires a in attempts && row in a.rows
    ensures row in AllRows(attempts)
  {
    if a != attempts[0] {
      RowOfAttempt(attempts[1..], a, row);
    }
  }

  lemma {:induction false} AttemptOfRow(attempts: seq<Attempt>, row: NodeRow) returns (a: Attempt)
    requires row in AllRows(attempts)
    ensures a in attempts && row in a.rows
  {
    if row in attempts[0].rows {
      a := attempts[0];
    } else {
      a := AttemptOfRow(attempts[1..], row);
    }
  }

  /**
    The evidence for recycling: every planned node was stopped, in every attempt of the selected source, and
    there is one.
   */
  ghost predicate AllStopped(attempts: seq<Attempt>, nodes: seq<string>, token: string) {
    var source := SelectedSource(AllRows(attempts));
    && (exists a :: a in attempts && a.source == source)
    && forall a :: a in attempts && a.source == source ==>
         NodesOf(a.rows) == nodes && forall row :: row in a.rows ==> StopProof(row, token)
  }

  /** Main result: an accepted task whose cleanup is confirmed has stop evidence for every planned node. */
  lemma ConfirmedMeansStopped(attempts: seq<Attempt>, nodes: seq<string>, token: string, nodeCleanup: seq<string>)
    requires AllRows(attempts) != [] && forall a :: a in attempts ==> GoodAttempt(a, nodes, token)
    requires Confirmed(attempts, nodeCleanup)
    ensures AllStopped(attempts, nodes, token)
  {
    hide StopProof, AllRows;
    var rows := AllRows(attempts);
    var source := SelectedSource(rows);
    SelectedExists(attempts, nodes, token);
    forall a, row | a in attempts && a.source == source && row in a.rows ensures StopProof(row, token) {
      RowOfAttempt(attempts, a, row);
      assert Truthful(row, a, token);
      var i :| 0 <= i < |rows| && rows[i] == row;
      assert rows[i].status == CONFIRMED;
    }
  }

  lemma SelectedExists(attempts: seq<Attempt>, nodes: seq<string>, token: string)
    requires AllRows(attempts) != [] && forall a :: a in attempts ==> GoodAttempt(a, nodes, token)
    ensures exists a :: a in attempts && a.source == SelectedSource(AllRows(attempts))
  {
    hide StopProof, AllRows;
    var rows := AllRows(attempts);
    var i := 0;
    if j :| 0 <= j < |rows| && rows[j].source == "normal" { i := j; }
    assert rows[i] in rows;
    var a := AttemptOfRow(attempts, rows[i]);
    assert Truthful(rows[i], a, token);
    assert GoodAttempt(a, nodes, token);
  }

  /** Conversely, truthful lines with stop evidence for every selected line always satisfy the confirmation check. */
  lemma StoppedMeansConfirmed(attempts: seq<Attempt>, nodes: seq<string>, token: string, nodeCleanup: seq<string>)
    requires forall a :: a in attempts ==> GoodAttempt(a, nodes, token)
    requires AllStopped(attempts, nodes, token)
    requires forall i :: 0 <= i < |nodeCleanup| ==> nodeCleanup[i] == "CONFIRMED"
    ensures Confirmed(attempts, nodeCleanup)
  {
    hide StopProof, AllRows;
    var rows := AllRows(attempts);
    forall i | 0 <= i < |rows| && rows[i].source == SelectedSource(rows) ensures rows[i].status == CONFIRMED {
      assert rows[i] in rows;
      var a := AttemptOfRow(attempts, rows[i]);
      assert GoodAttempt(a, nodes, token);
      assert Truthful(rows[i], a, token);
      assert a.source == rows[i].source;
      assert StopProof(rows[i], token);
    }
  }
}
