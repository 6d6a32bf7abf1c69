/**
  The group log store as a state machine: `_archive_file` and `DirectGroupLog._append`
  broken into their externally visible steps, with a crash possible between any two of them.
 */
module GroupStore {
  import opened Wrappers
  import opened Bytes
  import LogIndex

  /** A path below `.state`. */
  type Source = string

  predicate Accepted(s: Source) {
    LogIndex.Accepted(s)
  }

  /** A checksum without collisions. */
  datatype Digest = Sha256(of: Bytes)

  datatype Row = Row(offset: nat, length: nat, digest: Digest)

  datatype StreamRow = StreamRow(source: Source, row: Row)

  /** What the lock holder is doing. `todo` and `rest` are what it still has to append. */
  datatype Op =
    | Idle
    | Writing(source: Source, base: nat, offset: nat, content: Bytes, todo: Bytes)
    | Verified(source: Source, row: Row)
    | Unlinking(source: Source)
    | Feeding(feed: Option<Source>, data: Bytes, at: nat, rest: Bytes)

  /**
    Archive file, closed source files, committed index, stream index and the current operation.
    `written` and `fed` are history: the last content of every source file, and all acknowledged feeds.
   */
  datatype Store = Store(
    archive: Bytes,
    files: map<Source, Bytes>,
    rows: map<Source, Row>,
    stream: seq<StreamRow>,
    op: Op,
    written: map<Source, Bytes>,
    fed: seq<(Source, Bytes)>)

  const EMPTY := Store([], map[], map[], [], Idle, map[], [])

  datatype Action =
    | WriteFile(source: Source, content: Bytes)
    | BeginArchive(source: Source, banner: Bytes)
    | WritePiece(count: nat)
    | Verify
    | Commit
    | Unlink
    | BeginFeed(feed: Option<Source>, data: Bytes)
    | FeedPiece(count: nat)
    | FeedCommit
    | Crash

  predicate InBounds(archive: Bytes, r: Row) {
    r.offset + r.length <= |archive|
  }

  function RangeOf(archive: Bytes, r: Row): Bytes
    requires InBounds(archive, r)
  {
    archive[r.offset..r.offset + r.length]
  }

  /** The row is in bounds and its checksum matches the archive. */
  predicate RowHolds(archive: Bytes, r: Row) {
    InBounds(archive, r) && Sha256(RangeOf(archive, r)) == r.digest
  }

  /** An earlier commit of the same file: equal size, equal checksum, and the archive still has it. */
  predicate AlreadyArchived(st: Store, s: Source) {
    && s in st.files && s in st.rows
    && |st.files[s]| == st.rows[s].length && Sha256(st.files[s]) == st.rows[s].digest
    && RowHolds(st.archive, st.rows[s])
  }

  /** Every reader and every archiving call parses the whole index again; `ReadableIsParse` says when that succeeds. */
  predicate Readable(rows: map<Source, Row>) {
    forall s :: s in rows ==> LogIndex.Clean(s)
  }

  /** Archiving is refused for a name with a delimiter, when the index is rejected, and without a file. */
  predicate Refused(st: Store, s: Source) {
    !Accepted(s) || !Readable(st.rows) || s !in st.files
  }

  predicate Enabled(st: Store, a: Action) {
    match a
    case WriteFile(s, _) => !(st.op.Writing? && st.op.source == s) && !(st.op.Verified? && st.op.source == s)
                            && !(st.op.Unlinking? && st.op.source == s)
    case BeginArchive(_, _) => st.op.Idle?
    case WritePiece(n) => st.op.Writing? && 1 <= n <= |st.op.todo|
    case Verify => st.op.Writing? && st.op.todo == []
    case Commit => st.op.Verified?
    case Unlink => st.op.Unlinking?
    case BeginFeed(_, _) => st.op.Idle?
    case FeedPiece(n) => st.op.Feeding? && 1 <= n <= |st.op.rest|
    case FeedCommit => st.op.Feeding? && st.op.rest == []
    case Crash => true
  }

  function Apply(st: Store, a: Action): Store
    requires Enabled(st, a)
  {
    match a
    case WriteFile(s, content) => st.(files := st.files[s := content], written := st.written[s := content])
    case BeginArchive(s, banner) =>
      if Refused(st, s) then st
      else if AlreadyArchived(st, s) then st.(op := Unlinking(s))
      else
        var content := st.files[s];
        st.(op := Writing(s, |st.archive|, |st.archive| + |banner|, content, banner + content + [NEWLINE]))
    case WritePiece(n) => st.(archive := st.archive + st.op.todo[..n], op := st.op.(todo := st.op.todo[n..]))
    case Verify =>
      var row := Row(st.op.offset, |st.op.content|, Sha256(st.op.content));
      st.(op := if RowHolds(st.archive, row) then Verified(st.op.source, row) else Idle)
    case Commit => st.(rows := st.rows[st.op.source := st.op.row], op := Unlinking(st.op.source))
    case Unlink => st.(files := st.files - {st.op.source}, op := Idle)
    case BeginFeed(feed, data) =>
      if feed.Some? && !Accepted(feed.value) then st else st.(op := Feeding(feed, data, |st.archive|, data))
    case FeedPiece(n) => st.(archive := st.archive + st.op.rest[..n], op := st.op.(rest := st.op.rest[n..]))
    case FeedCommit =>
      if st.op.feed.None? then st.(op := Idle)
      else
        var s, data := st.op.feed.value, st.op.data;
        st.(stream := st.stream + [StreamRow(s, Row(st.op.at, |data|, Sha256(data)))], fed := st.fed + [(s, data)],
            op := Idle)
    case Crash => st.(op := Idle)
  }

  ghost predicate ValidRun(st: Store, actions: seq<Action>)
    decreases |actions|
  {
    actions == [] || (Enabled(st, actions[0]) && ValidRun(Apply(st, actions[0]), actions[1..]))
  }

  function Exec(st: Store, actions: seq<Action>): Store
    requires ValidRun(st, actions)
    decreases |actions|
  {
    if actions == [] then st else Exec(Apply(st, actions[0]), actions[1..])
  }

  // ---------------------------------------------------------------- what readers see

  /** What the store still has of a source: its file, else its committed range. */
  function Held(st: Store, s: Source): Option<Bytes> {
    if s in st.files then Some(st.files[s])
    else if s in st.rows && RowHolds(st.archive, st.rows[s]) then Some(RangeOf(st.archive, st.rows[s]))
    else None
  }

  /** The legacy branch of `read_log_text`: without its file, a source is found through the index. */
  function Content(st: Store, s: Source): Option<Bytes> {
    if s in st.files || Readable(st.rows) then Held(st, s) else None
  }

  /** The indexed ranges of a direct-log source, in index order. */
  function StreamContent(archive: Bytes, stream: seq<StreamRow>, s: Source): Bytes
    requires forall r :: r in stream ==> InBounds(archive, r.row)
  {
    if stream == [] then [] else
      var n := |stream| - 1;
      StreamContent(archive, stream[..n], s) + (if stream[n].source == s then RangeOf(archive, stream[n].row) else [])
  }

  function FedTo(fed: seq<(Source, Bytes)>, s: Source): Bytes {
    if fed == [] then [] else
      FedTo(fed[..|fed| - 1], s) + (if fed[|fed| - 1].0 == s then fed[|fed| - 1].1 else [])
  }

  // ---------------------------------------------------------------- the invariant

  ghost predicate RowsHold(st: Store) {
    forall s :: s in st.rows ==> Accepted(s) && RowHolds(st.archive, st.rows[s])
  }

  /** Stream rows hold, follow each other without overlap, and record exactly the acknowledged feeds. */
  ghost predicate StreamHolds(st: Store) {
    && |st.stream| == |st.fed|
    && (forall i :: 0 <= i < |st.stream| ==>
          RowHolds(st.archive, st.stream[i].row) && st.stream[i].source == st.fed[i].0
          && RangeOf(st.archive, st.stream[i].row) == st.fed[i].1)
    && (forall i, j :: 0 <= i < j < |st.stream| ==>
          st.stream[i].row.offset + st.stream[i].row.length <= st.stream[j].row.offset)
  }

  ghost predicate OpHolds(st: Store) {
    match st.op
    case Idle => true
    case Writing(s, base, offset, content, todo) =>
      && Accepted(s) && s in st.files && st.files[s] == content && base <= offset && base <= |st.archive|
      && exists banner: Bytes :: |banner| == offset - base && st.archive[base..] + todo == banner + content + [NEWLINE]
    case Verified(s, row) =>
      Accepted(s) && s in st.files && row.length == |st.files[s]| && row.digest == Sha256(st.files[s])
          && RowHolds(st.archive, row)
    case Unlinking(s) => AlreadyArchived(st, s)
    case Feeding(_, data, at, rest) =>
      && at <= |st.archive| && st.archive[at..] + rest == data
      && forall r :: r in st.stream ==> r.row.offset + r.row.length <= at
  }

  /** Every source is held with its last written content, and nothing else is held. */
  ghost predicate NothingLost(st: Store) {
    forall s :: Held(st, s) == if s in st.written then Some(st.written[s]) else None
  }

  ghost predicate Inv(st: Store) {
    RowsHold(st) && StreamHolds(st) && OpHolds(st) && NothingLost(st)
  }

  // ---------------------------------------------------------------- preservation

  lemma RowSurvives(archive: Bytes, more: Bytes, r: Row)
    requires InBounds(archive, r)
    ensures InBounds(archive + more, r) && RangeOf(archive + more, r) == RangeOf(archive, r)
  {
  }

  /** Appending to the archive keeps every row, every feed and every reader's view. */
  lemma AppendKeeps(st: Store, more: Bytes, op: Op)
    requires RowsHold(st) && StreamHolds(st) && NothingLost(st)
    ensures var next := st.(archive := st.archive + more, op := op);
            RowsHold(next) && StreamHolds(next) && NothingLost(next)
  {
    hide NothingLost;
    var next := st.(archive := st.archive + more, op := op);
    forall s | s in st.rows
      ensures RowHolds(next.archive, st.rows[s])
              && RangeOf(next.archive, st.rows[s]) == RangeOf(st.archive, st.rows[s]) {
      RowSurvives(st.archive, more, st.rows[s]);
    }
    forall i | 0 <= i < |st.stream|
      ensures RowHolds(next.archive, st.stream[i].row)
              && RangeOf(next.archive, st.stream[i].row) == RangeOf(st.archive, st.stream[i].row)
    {
      RowSurvives(st.archive, more, st.stream[i].row);
    }
    forall s ensures Held(next, s) == Held(st, s) {}
    SameHeld(st, next);
  }

  lemma SameHeld(a: Store, b: Store)
    requires a.written == b.written && NothingLost(a) && forall s :: Held(a, s) == Held(b, s)
    ensures NothingLost(b)
  {
    hide Held;
  }

  /** Changing only the operation keeps everything readers see. */
  lemma OpKeeps(st: Store, op: Op)
    requires RowsHold(st) && StreamHolds(st) && NothingLost(st)
    ensures var next := st.(op := op); RowsHold(next) && StreamHolds(next) && NothingLost(next)
  {
    hide NothingLost, RowHolds;
    forall s ensures Held(st.(op := op), s) == Held(st, s) {}
    SameHeld(st, st.(op := op));
  }

  lemma BeginArchiveKeeps(st: Store, s: Source, banner: Bytes)
    requires Inv(st) && Enabled(st, BeginArchive(s, banner))
    ensures Inv(Apply(st, BeginArchive(s, banner)))
  {
    hide RowsHold, StreamHolds, NothingLost, RowHolds;
    var next := Apply(st, BeginArchive(s, banner));
    OpKeeps(st, next.op);
    if !Refused(st, s) && !AlreadyArchived(st, s) {
      assert st.archive[|st.archive|..] + (banner + st.files[s] + [NEWLINE]) == banner + st.files[s] + [NEWLINE];
    }
  }

  lemma Advance(archive: Bytes, at: nat, todo: Bytes, n: nat)
    requires at <= |archive| && n <= |todo|
    ensures (archive + todo[..n])[at..] + todo[n..] == archive[at..] + todo
  {
    assert (archive + todo[..n])[at..] == archive[at..] + todo[..n];
    assert todo[..n] + todo[n..] == todo;
  }

  lemma WritePieceKeeps(st: Store, n: nat)
    requires Inv(st) && Enabled(st, WritePiece(n))
    ensures Inv(Apply(st, WritePiece(n)))
  {
    hide RowsHold, StreamHolds, NothingLost;
    var next := Apply(st, WritePiece(n));
    AppendKeeps(st, st.op.todo[..n], next.op);
    Advance(st.archive, st.op.base, st.op.todo, n);
  }

  lemma FeedPieceKeeps(st: Store, n: nat)
    requires Inv(st) && Enabled(st, FeedPiece(n))
    ensures Inv(Apply(st, FeedPiece(n)))
  {
    hide RowsHold, StreamHolds, NothingLost;
    var next := Apply(st, FeedPiece(n));
    AppendKeeps(st, st.op.rest[..n], next.op);
    Advance(st.archive, st.op.at, st.op.rest, n);
  }

  /** The verification step always succeeds: the archive holds exactly the file's bytes at the recorded offset. */
  lemma VerifySucceeds(st: Store)
    requires OpHolds(st) && st.op.Writing? && st.op.todo == []
    ensures RowHolds(st.archive, Row(st.op.offset, |st.op.content|, Sha256(st.op.content)))
  {
    var op := st.op;
    var banner: Bytes :| |banner| == op.offset - op.base
        && st.archive[op.base..] + op.todo == banner + op.content + [NEWLINE];
    var tail := st.archive[op.base..];
    assert tail == banner + op.content + [NEWLINE];
    assert tail[|banner|..|banner| + |op.content|] == op.content;
    assert st.archive[op.offset..op.offset + |op.content|] == tail[|banner|..|banner| + |op.content|];
  }

  lemma VerifyKeeps(st: Store)
    requires Inv(st) && Enabled(st, Verify)
    ensures Inv(Apply(st, Verify)) && Apply(st, Verify).op.Verified?
  {
    hide RowsHold, StreamHolds, NothingLost;
    VerifySucceeds(st);
    OpKeeps(st, Apply(st, Verify).op);
  }

  lemma CommitKeeps(st: Store)
    requires Inv(st) && Enabled(st, Commit)
    ensures Inv(Apply(st, Commit))
  {
    hide NothingLost;
    var next := Apply(st, Commit);
    forall s ensures Held(next, s) == Held(st, s) {}
    SameHeld(st, next);
  }

  lemma UnlinkKeeps(st: Store)
    requires Inv(st) && Enabled(st, Unlink)
    ensures Inv(Apply(st, Unlink))
  {
    hide NothingLost, StreamHolds;
    var next := Apply(st, Unlink);
    StreamSame(st, next);
    forall s ensures Held(next, s) == Held(st, s) {
      if s == st.op.source { assert RangeOf(st.archive, st.rows[s]) == st.files[s]; }
    }
    SameHeld(st, next);
  }

  lemma StreamSame(a: Store, b: Store)
    requires StreamHolds(a) && a.archive == b.archive && a.stream == b.stream && a.fed == b.fed
    ensures StreamHolds(b)
  {
  }

  lemma WriteFileKeeps(st: Store, s: Source, content: Bytes)
    requires Inv(st) && Enabled(st, WriteFile(s, content))
    ensures Inv(Apply(st, WriteFile(s, content)))
  {
    hide StreamHolds, RowHolds;
    var next := Apply(st, WriteFile(s, content));
    StreamSame(st, next);
    forall t ensures Held(next, t) == if t == s then Some(content) else Held(st, t) {}
    assert OpHolds(next) by {
      if st.op.Writing? {
        assert st.op.source in next.files && next.files[st.op.source] == st.op.content;
      }
    }
  }

  lemma FeedCommitKeeps(st: Store)
    requires Inv(st) && Enabled(st, FeedCommit)
    ensures Inv(Apply(st, FeedCommit))
  {
    hide NothingLost, RowsHold;
    var next := Apply(st, FeedCommit);
    if st.op.feed.None? {
      OpKeeps(st, Idle);
    } else {
      assert st.archive[st.op.at..] == st.op.data;
      var row := Row(st.op.at, |st.op.data|, Sha256(st.op.data));
      assert RowHolds(st.archive, row) && RangeOf(st.archive, row) == st.op.data;
      forall s ensures Held(next, s) == Held(st, s) {}
      SameHeld(st, next);
      RowsSame(st, next);
      forall i | 0 <= i < |st.stream| ensures st.stream[i].row.offset + st.stream[i].row.length <= st.op.at {
        assert st.stream[i] in st.stream;
      }
    }
  }

  lemma RowsSame(a: Store, b: Store)
    requires RowsHold(a) && a.archive == b.archive && a.rows == b.rows
    ensures RowsHold(b)
  {
  }

  lemma BeginFeedKeeps(st: Store, feed: Option<Source>, data: Bytes)
    requires Inv(st) && Enabled(st, BeginFeed(feed, data))
    ensures Inv(Apply(st, BeginFeed(feed, data)))
  {
    hide NothingLost, RowsHold, Accepted;
    OpKeeps(st, Feeding(feed, data, |st.archive|, data));
    assert st.archive[|st.archive|..] + data == data;
    forall r | r in st.stream ensures r.row.offset + r.row.length <= |st.archive| {
      var i :| 0 <= i < |st.stream| && st.stream[i] == r;
    }
  }

  /** Every step keeps the invariant. */
  lemma StepKeeps(st: Store, a: Action)
    requires Inv(st) && Enabled(st, a)
    ensures Inv(Apply(st, a))
  {
    match a {
      case WriteFile(s, content) => WriteFileKeeps(st, s, content);
      case BeginArchive(s, banner) => BeginArchiveKeeps(st, s, banner);
      case WritePiece(n) => WritePieceKeeps(st, n);
      case Verify => VerifyKeeps(st);
      case Commit => CommitKeeps(st);
      case Unlink => UnlinkKeeps(st);
      case BeginFeed(feed, data) => BeginFeedKeeps(st, feed, data);
      case FeedPiece(n) => FeedPieceKeeps(st, n);
      case FeedCommit => FeedCommitKeeps(st);
      case Crash => OpKeeps(st, Idle);
    }
  }

  // ---------------------------------------------------------------- runs

  lemma EmptyInv()
    ensures Inv(EMPTY)
  {
  }

  /** Main result: the invariant holds after every run, with crashes, retries and other sources in any order. */
  lemma {:induction false} RunKeeps(st: Store, actions: seq<Action>)
    requires Inv(st) && ValidRun(st, actions)
    ensures Inv(Exec(st, actions))
    decreases |actions|
  {
    hide Inv, Enabled, Apply;
    if actions != [] {
      StepKeeps(st, actions[0]);
      RunKeeps(Apply(st, actions[0]), actions[1..]);
    }
  }

  /** The last content a run writes to a source's file. */
  function LastWritten(actions: seq<Action>, s: Source, before: Option<Bytes>): Option<Bytes>
    decreases |actions|
  {
    if actions == [] then before
    else LastWritten(actions[1..], s,
                     if actions[0].WriteFile? && actions[0].source == s then Some(actions[0].content) else before)
  }

  function Known(st: Store, s: Source): Option<Bytes> {
    if s in st.written then Some(st.written[s]) else None
  }

  lemma {:induction false} WrittenIsLast(st: Store, actions: seq<Action>, s: Source)
    requires ValidRun(st, actions)
    ensures Known(Exec(st, actions), s) == LastWritten(actions, s, Known(st, s))
    decreases |actions|
  {
    hide Apply, Enabled, Known;
    if actions != [] {
      WrittenIsLast(Apply(st, actions[0]), actions[1..], s);
      OnlyWritesCount(st, actions[0], s);
    }
  }

  lemma OnlyWritesCount(st: Store, a: Action, s: Source)
    requires Enabled(st, a)
    ensures Known(Apply(st, a), s) == if a.WriteFile? && a.source == s then Some(a.content) else Known(st, s)
  {
    hide AlreadyArchived, RowHolds, Refused, Accepted;
  }

  /**
    Main result. After every run of the store, wherever it crashed and however often it was retried, the store
    holds exactly the bytes last written to a source's file: in the file, or in the range of its committed row.
   */
  lemma BytesNeverLost(actions: seq<Action>, s: Source)
    requires ValidRun(EMPTY, actions)
    ensures Held(Exec(EMPTY, actions), s) == LastWritten(actions, s, None)
  {
    hide Apply, Held, RowsHold, StreamHolds, OpHolds;
    EmptyInv();
    RunKeeps(EMPTY, actions);
    WrittenIsLast(EMPTY, actions, s);
  }

  /**
    A source reads as its last written bytes unless it has to be found in a rejected index; then it does not
    read at all.
   */
  lemma ReaderExact(actions: seq<Action>, s: Source)
    requires ValidRun(EMPTY, actions)
    ensures var st, last := Exec(EMPTY, actions), LastWritten(actions, s, None);
            && (Content(st, s) == last <==> last.None? || s in st.files || Readable(st.rows))
            && (Content(st, s) != last ==> Content(st, s) == None && s in st.rows)
  {
    hide Held, Readable, ValidRun, Exec;
    BytesNeverLost(actions, s);
    HeldSomewhere(Exec(EMPTY, actions), s);
  }

  lemma HeldSomewhere(st: Store, s: Source)
    ensures Held(st, s).Some? ==> s in st.files || s in st.rows
    ensures s in st.files ==> Held(st, s).Some?
  {
  }

  /**
    Main result. After every run of the store, wherever it crashed and however often it was retried, every
    source reads as exactly the bytes last written to its file, if and only if every committed name is free
    of line boundaries or every committed source still has its file.
   */
  lemma ReadersNeverLose(actions: seq<Action>)
    requires ValidRun(EMPTY, actions)
    ensures var st := Exec(EMPTY, actions);
            (forall s :: Content(st, s) == LastWritten(actions, s, None))
            <==> Readable(st.rows) || forall s :: s in st.rows ==> s in st.files
  {
    hide Apply, Content, RowsHold, StreamHolds, OpHolds, Readable, LastWritten;
    EmptyInv();
    RunKeeps(EMPTY, actions);
    var st := Exec(EMPTY, actions);
    forall s ensures Content(st, s) == LastWritten(actions, s, None)
                <==> LastWritten(actions, s, None).None? || s in st.files || Readable(st.rows)
    {
      ReaderExact(actions, s);
    }
    forall s | LastWritten(actions, s, None).Some? && Content(st, s) != LastWritten(actions, s, None)
        ensures s in st.rows {
      ReaderExact(actions, s);
    }
    forall s | s in st.rows ensures LastWritten(actions, s, None).Some? {
      WrittenIsLast(EMPTY, actions, s);
      RowIsKnown(st, s);
    }
  }

  lemma RowIsKnown(st: Store, s: Source)
    requires Inv(st) && s in st.rows
    ensures s in st.written
  {
    hide StreamHolds, OpHolds;
    assert Held(st, s).Some?;
  }

  /** The sources whose rows a run commits. */
  function Commits(st: Store, actions: seq<Action>): set<Source>
    requires ValidRun(st, actions)
    decreases |actions|
  {
    if actions == [] then {}
    else (if actions[0].Commit? then {st.op.source} else {}) + Commits(Apply(st, actions[0]), actions[1..])
  }

  lemma {:induction false} RowsAreCommits(st: Store, actions: seq<Action>)
    requires ValidRun(st, actions)
    ensures Exec(st, actions).rows.Keys == st.rows.Keys + Commits(st, actions)
    decreases |actions|
  {
    hide Apply, Enabled;
    if actions != [] {
      RowsAreCommits(Apply(st, actions[0]), actions[1..]);
      OnlyCommitsAdd(st, actions[0]);
    }
  }

  lemma OnlyCommitsAdd(st: Store, a: Action)
    requires Enabled(st, a)
    ensures Apply(st, a).rows.Keys == st.rows.Keys + (if a.Commit? then {st.op.source} else {})
  {
    hide AlreadyArchived, RowHolds, Refused;
  }

  /** Main result: the index stays readable exactly as long as no name with a line boundary is committed. */
  lemma ReadableExact(actions: seq<Action>)
    requires ValidRun(EMPTY, actions)
    ensures Readable(Exec(EMPTY, actions).rows) <==> forall s :: s in Commits(EMPTY, actions) ==> LogIndex.Clean(s)
  {
    RowsAreCommits(EMPTY, actions);
    assert EMPTY.rows.Keys == {};
    assert forall s :: s in Exec(EMPTY, actions).rows <==> s in Exec(EMPTY, actions).rows.Keys;
  }

  /**
    Main result: once the index is rejected nothing archives any more. From then on no row changes, no file is
    removed, and what has lost its file stays unreadable until it is written again.
   */
  lemma {:induction false} RejectedForever(st: Store, actions: seq<Action>)
    requires ValidRun(st, actions) && !Readable(st.rows) && (st.op.Idle? || st.op.Feeding?)
    ensures var end := Exec(st, actions);
            && end.rows == st.rows && st.files.Keys <= end.files.Keys
            && forall s :: s !in end.files ==> Content(end, s) == None
    decreases |actions|
  {
    hide Readable, AlreadyArchived, RowHolds;
    if actions != [] {
      var next := Apply(st, actions[0]);
      assert next.rows == st.rows && st.files.Keys <= next.files.Keys && (next.op.Idle? || next.op.Feeding?);
      RejectedForever(next, actions[1..]);
    }
  }

  /**
    Main result: archiving a file from a readable index leaves what every reader sees unchanged if and only if
    the file's name is free of line boundaries.
   */
  lemma ArchivingIsSafe(st: Store, next: Store, s: Source)
    requires Inv(st) && Inv(next) && Readable(st.rows) && s in st.files
    requires next.written == st.written && next.files == st.files - {s} && next.rows.Keys == st.rows.Keys + {s}
    ensures (forall t :: Content(next, t) == Content(st, t)) <==> LogIndex.Clean(s)
    ensures !LogIndex.Clean(s) ==> forall t :: t !in next.files ==> Content(next, t) == None
  {
    hide RowsHold, StreamHolds, OpHolds;
    forall t ensures Held(next, t) == Held(st, t) {}
    assert Readable(next.rows) <==> LogIndex.Clean(s) by {
      assert forall t :: t in next.rows <==> t in next.rows.Keys;
      assert s in next.rows.Keys;
      assert forall t :: t in st.rows <==> t in st.rows.Keys;
    }
    hide Held, Readable, NothingLost;
    if !LogIndex.Clean(s) {
      assert Content(next, s) == None;
      assert Content(st, s) != None by { HeldSomewhere(st, s); }
    }
  }

  // ---------------------------------------------------------------- a run that loses a reader

  /** All steps of archiving one file, its bytes written at once. */
  function ArchiveRun(st: Store, s: Source, banner: Bytes): seq<Action>
    requires s in st.files
  {
    [BeginArchive(s, banner), WritePiece(|banner| + |st.files[s]| + 1), Verify, Commit, Unlink]
  }

  /** What an uninterrupted archiving of a new file leaves. */
  function Archived(st: Store, s: Source, banner: Bytes): Store
    requires s in st.files
  {
    st.(archive := st.archive + (banner + st.files[s] + [NEWLINE]), files := st.files - {s},
        rows := st.rows[s := Row(|st.archive| + |banner|, |st.files[s]|, Sha256(st.files[s]))])
  }

  lemma ArchiveRunWorks(st: Store, s: Source, banner: Bytes)
    requires Inv(st) && st.op.Idle? && !Refused(st, s) && s !in st.rows
    ensures ValidRun(st, ArchiveRun(st, s, banner)) && Exec(st, ArchiveRun(st, s, banner)) == Archived(st, s, banner)
  {
    hide RowsHold, StreamHolds, NothingLost, RowHolds, Readable;
    var a := ArchiveRun(st, s, banner);
    var one := Apply(st, a[0]);
    var todo := banner + st.files[s] + [NEWLINE];
    assert todo[..|todo|] == todo && todo[|todo|..] == [];
    var two := Apply(one, a[1]);
    BeginArchiveKeeps(st, s, banner);
    WritePieceKeeps(one, |todo|);
    VerifyKeeps(two);
    var row := Row(|st.archive| + |banner|, |st.files[s]|, Sha256(st.files[s]));
    var three := Apply(two, a[2]);
    assert two.archive == st.archive + todo && three == two.(op := Verified(s, row));
    var four := Apply(three, a[3]);
    assert four == three.(rows := st.rows[s := row], op := Unlinking(s));
    FiveSteps(st, a, one, two, three, four);
  }

  lemma FiveSteps(st: Store, a: seq<Action>, one: Store, two: Store, three: Store, four: Store)
    requires |a| == 5 && Enabled(st, a[0]) && one == Apply(st, a[0]) && Enabled(one, a[1]) && two == Apply(one, a[1])
    requires Enabled(two, a[2]) && three == Apply(two, a[2]) && Enabled(three, a[3]) && four == Apply(three, a[3])
              && Enabled(four, a[4])
    ensures ValidRun(st, a) && Exec(st, a) == Apply(four, a[4])
  {
    hide Apply, Enabled;
    assert a[4..][1..] == [] && a[3..][1..] == a[4..] && a[2..][1..] == a[3..] && a[1..][1..] == a[2..];
    assert ValidRun(Apply(four, a[4]), []);
    assert ValidRun(four, a[4..]) && Exec(four, a[4..]) == Apply(four, a[4]);
    assert ValidRun(three, a[3..]) && Exec(three, a[3..]) == Exec(four, a[4..]);
    assert ValidRun(two, a[2..]) && Exec(two, a[2..]) == Exec(three, a[3..]);
    assert ValidRun(one, a[1..]) && Exec(one, a[1..]) == Exec(two, a[2..]);
  }

  lemma {:induction false} RunAppend(st: Store, a: seq<Action>, b: seq<Action>)
    requires ValidRun(st, a) && ValidRun(Exec(st, a), b)
    ensures ValidRun(st, a + b) && Exec(st, a + b) == Exec(Exec(st, a), b)
    decreases |a|
  {
    hide Apply, Enabled;
    if a == [] {
      assert a + b == b;
    } else {
      TailOfAppend(a, b);
      RunAppend(Apply(st, a[0]), a[1..], b);
    }
  }

  lemma {:induction false} LastWrittenAppend(a: seq<Action>, b: seq<Action>, s: Source, before: Option<Bytes>)
    ensures LastWritten(a + b, s, before) == LastWritten(b, s, LastWritten(a, s, before))
    decreases |a|
  {
    if a == [] {
      assert a + b == b;
    } else {
      TailOfAppend(a, b);
      var first := a[0].WriteFile? && a[0].source == s;
      LastWrittenAppend(a[1..], b, s, if first then Some(a[0].content) else before);
    }
  }

  /** Writing one file and archiving it. */
  lemma Stored(st: Store, s: Source, content: Bytes) returns (run: seq<Action>)
    requires Inv(st) && st.op.Idle? && Accepted(s) && Readable(st.rows) && s !in st.rows
    ensures ValidRun(st, run) && Inv(Exec(st, run)) && Exec(st, run).op.Idle?
    ensures Exec(st, run).rows.Keys == st.rows.Keys + {s} && s !in Exec(st, run).files
    ensures forall t :: t !in st.files ==> t !in Exec(st, run).files
    ensures forall t, before :: LastWritten(run, t, before) == if t == s then Some(content) else before
  {
    var write := WriteFile(s, content);
    var mid := Apply(st, write);
    StepKeeps(st, write);
    ArchiveRunWorks(mid, s, []);
    var rest := ArchiveRun(mid, s, []);
    run := [write] + rest;
    TailOfAppend([write], rest);
    assert run[1..] == rest;
    hide Apply, Enabled, Inv;
    assert Exec(st, run) == Archived(mid, s, []);
    RunKeeps(st, run);
    forall t, before ensures LastWritten(run, t, before) == if t == s then Some(content) else before {
      NoWrite(rest, t, if t == s then Some(content) else before);
    }
  }

  lemma {:induction false} NoWrite(run: seq<Action>, t: Source, before: Option<Bytes>)
    requires forall a :: a in run ==> !a.WriteFile?
    ensures LastWritten(run, t, before) == before
    decreases |run|
  {
    if run != [] {
      assert run[0] in run;
      NoWrite(run[1..], t, before);
    }
  }

  const FORM_FEED_NAME: Source := ['a', '\U{0C}', 'b']

  /**
    Archiving `a` and then a file whose name holds a form feed makes both unreadable, although the
    archive holds the bytes of both.
   */
  lemma FormFeedLosesReaders(content: Bytes) returns (actions: seq<Action>)
    ensures ValidRun(EMPTY, actions)
    ensures forall s :: s in {"a", FORM_FEED_NAME} ==>
              LastWritten(actions, s, None) == Some(content) && Content(Exec(EMPTY, actions), s) == None
              && Held(Exec(EMPTY, actions), s) == Some(content)
  {
    EmptyInv();
    var first := Stored(EMPTY, "a", content);
    var mid := Exec(EMPTY, first);
    assert mid.rows.Keys == {"a"};
    assert forall s :: s in mid.rows <==> s in mid.rows.Keys;
    assert FORM_FEED_NAME[1] == '\U{0C}' && |FORM_FEED_NAME| == 3 && |"a"| == 1;
    var second := Stored(mid, FORM_FEED_NAME, content);
    var end := Exec(mid, second);
    RunAppend(EMPTY, first, second);
    actions := first + second;
    assert end.rows.Keys == {"a", FORM_FEED_NAME};
    assert FORM_FEED_NAME in end.rows.Keys && !LogIndex.Clean(FORM_FEED_NAME);
    assert !Readable(end.rows);
    hide Apply, Enabled, Readable, Inv, Held, Exec, ValidRun;
    forall s | s in {"a", FORM_FEED_NAME}
      ensures LastWritten(actions, s, None) == Some(content) && Content(end, s) == None && Held(end, s) == Some(content)
    {
      LastWrittenAppend(first, second, s, None);
      BytesNeverLost(actions, s);
    }
  }

  // ---------------------------------------------------------------- the text of the index

  /** The entries printed for the rows, in the order of the dictionary. */
  function Entries(rows: map<Source, Row>, order: seq<Source>, archive: string,
      hex: Digest -> string): (r: seq<LogIndex.Entry>)
    requires forall s :: s in order ==> s in rows
    ensures |r| == |order|
    ensures forall i :: 0 <= i < |r| ==>
              var row := rows[order[i]];
              r[i] == LogIndex.Entry(order[i], archive, LogIndex.Decimal(row.offset), LogIndex.Decimal(row.length),
                  hex(row.digest))
  {
    seq(|order|, i requires 0 <= i < |order| =>
      var row := rows[order[i]];
      LogIndex.Entry(order[i], archive, LogIndex.Decimal(row.offset), LogIndex.Decimal(row.length), hex(row.digest)))
  }

  /**
    Main result: the printed index parses back to its rows exactly when it is `Readable`, and is rejected
    otherwise.
   */
  lemma ReadableIsParse(rows: map<Source, Row>, order: seq<Source>, archive: string, hex: Digest -> string)
    requires forall s :: s in order <==> s in rows
    requires (forall s :: s in rows ==> Accepted(s)) && LogIndex.Clean(archive) && forall d :: LogIndex.Clean(hex(d))
    ensures var entries := Entries(rows, order, archive, hex);
            LogIndex.ParseIndex(LogIndex.PrintIndex(entries)) == if Readable(rows) then Some(entries) else None
  {
    hide LogIndex.ParseIndex, LogIndex.PrintIndex, LogIndex.Clean, LogIndex.Accepted;
    var entries := Entries(rows, order, archive, hex);
    forall e | e in entries ensures LogIndex.WellFormed(e) {
      var i :| 0 <= i < |entries| && entries[i] == e;
      assert order[i] in order;
    }
    LogIndex.IndexRoundTrip(entries);
    if s :| s in rows && !LogIndex.Clean(s) {
      var i :| 0 <= i < |order| && order[i] == s;
      assert entries[i] in entries && entries[i].source == s;
    }
  }

  /**
    Main result: a known source has its file with exactly its bytes, or an index row whose range holds exactly
    its bytes.
   */
  lemma FileOrRow(st: Store, s: Source)
    requires Inv(st) && s in st.written
    ensures (s in st.files && st.files[s] == st.written[s])
         || (s in st.rows && RowHolds(st.archive, st.rows[s]) && RangeOf(st.archive, st.rows[s]) == st.written[s])
  {
    hide StreamHolds, OpHolds, RowsHold;
    assert Held(st, s) == Some(st.written[s]);
  }

  /**
    No step takes anything out of the archive or the stream index, and only a commit touches a row, that of its
    own source.
   */
  lemma StepGrows(st: Store, a: Action)
    requires Enabled(st, a)
    ensures var next := Apply(st, a);
            && st.archive <= next.archive && st.stream <= next.stream
            && forall s :: s in st.rows && !(a.Commit? && st.op.source == s) ==>
                 s in next.rows && next.rows[s] == st.rows[s]
  {
    hide AlreadyArchived, RowHolds;
  }

  /**
    Main result: once a file is committed, archiving it again appends nothing and only removes the file;
    when the index is rejected it is refused and nothing changes.
   */
  lemma RetryOnlyUnlinks(st: Store, s: Source, banner: Bytes)
    requires Inv(st) && st.op.Idle? && s in st.files && s in st.rows && RangeOf(st.archive, st.rows[s]) == st.files[s]
    ensures Readable(st.rows) ==>
              && ValidRun(st, [BeginArchive(s, banner), Unlink])
              && Exec(st, [BeginArchive(s, banner), Unlink]) == st.(files := st.files - {s})
    ensures !Readable(st.rows) ==> Apply(st, BeginArchive(s, banner)) == st
  {
    hide StreamHolds, NothingLost, Readable;
    if Readable(st.rows) {
      assert RowHolds(st.archive, st.rows[s]);
      assert AlreadyArchived(st, s);
      var actions := [BeginArchive(s, banner), Unlink];
      var mid := Apply(st, actions[0]);
      assert mid == st.(op := Unlinking(s));
      assert Apply(mid, Unlink) == st.(files := st.files - {s});
      assert actions[1..] == [Unlink] && actions[1..][1..] == [];
      assert ValidRun(Apply(mid, Unlink), []);
      assert ValidRun(mid, [Unlink]);
    }
  }

  lemma {:induction false} StreamIsFed(archive: Bytes, stream: seq<StreamRow>, fed: seq<(Source, Bytes)>, s: Source)
    requires |stream| == |fed|
    requires forall i :: 0 <= i < |stream| ==>
               InBounds(archive, stream[i].row) && stream[i].source == fed[i].0
                   && RangeOf(archive, stream[i].row) == fed[i].1
    ensures forall r :: r in stream ==> InBounds(archive, r.row)
    ensures StreamContent(archive, stream, s) == FedTo(fed, s)
  {
    if stream != [] {
      var n := |stream| - 1;
      StreamIsFed(archive, stream[..n], fed[..n], s);
    }
  }

  /**
    Main result. Under any interleaving of writers and any crash, a direct-log source's ranges are in
    bounds, in order and disjoint, and their concatenation is everything acknowledged for it.
   */
  lemma StreamsComplete(actions: seq<Action>, s: Source)
    requires ValidRun(EMPTY, actions)
    ensures var st := Exec(EMPTY, actions);
            && StreamHolds(st)
            && (forall r :: r in st.stream ==> InBounds(st.archive, r.row))
            && StreamContent(st.archive, st.stream, s) == FedTo(st.fed, s)
  {
    hide Apply;
    EmptyInv();
    RunKeeps(EMPTY, actions);
    var st := Exec(EMPTY, actions);
    StreamIsFed(st.archive, st.stream, st.fed, s);
  }

  predicate Named(feed: Option<Source>) {
    feed.Some? && Accepted(feed.value)
  }

  /** The feeds a run acknowledges: begun, and then committed without a crash in between. */
  function Acknowledged(actions: seq<Action>, open: Option<(Source, Bytes)>): seq<(Source, Bytes)>
    decreases |actions|
  {
    if actions == [] then []
    else match actions[0]
      case BeginFeed(feed, data) => Acknowledged(actions[1..], if Named(feed) then Some((feed.value, data)) else None)
      case FeedCommit => (if open.Some? then [open.value] else []) + Acknowledged(actions[1..], None)
      case Crash => Acknowledged(actions[1..], None)
      case _ => Acknowledged(actions[1..], open)
  }

  function OpenFeed(st: Store): Option<(Source, Bytes)> {
    if st.op.Feeding? && st.op.feed.Some? then Some((st.op.feed.value, st.op.data)) else None
  }

  /** Main result: what the stream index records is exactly the acknowledged feeds, in order. */
  lemma {:induction false} FedIsAcknowledged(st: Store, actions: seq<Action>)
    requires ValidRun(st, actions)
    ensures Exec(st, actions).fed == st.fed + Acknowledged(actions, OpenFeed(st))
    decreases |actions|
  {
    hide AlreadyArchived, RowHolds;
    if actions == [] {
      assert st.fed + [] == st.fed;
    } else {
      var next := Apply(st, actions[0]);
      FedIsAcknowledged(next, actions[1..]);
      OneFeed(st, actions[0]);
      if actions[0].FeedCommit? {
        Regroup(st.fed, if OpenFeed(st).Some? then [OpenFeed(st).value] else [], Acknowledged(actions[1..], None));
      }
    }
  }

  lemma OneFeed(st: Store, a: Action)
    requires Enabled(st, a)
    ensures var next := Apply(st, a);
            && OpenFeed(next) == (match a
               case BeginFeed(feed, data) => (if Named(feed) then Some((feed.value, data)) else None)
               case FeedCommit => None
               case Crash => None
               case _ => OpenFeed(st))
            && next.fed == st.fed + (if a.FeedCommit? && OpenFeed(st).Some? then [OpenFeed(st).value] else [])
  {
    hide AlreadyArchived, RowHolds;
  }
}
