/** The group log object: archiving closed files, appending live output, reading back. */
module GroupLogs {
  import opened Wrappers
  import opened Bytes
  import opened GroupStore
  import LogIndex

  lemma {:induction false} RunSnoc(st: Store, actions: seq<Action>, a: Action)
    requires ValidRun(st, actions) && Enabled(Exec(st, actions), a)
    ensures ValidRun(st, actions + [a]) && Exec(st, actions + [a]) == Apply(Exec(st, actions), a)
    decreases |actions|
  {
    hide Enabled, Apply;
    if actions == [] {
      assert actions + [a] == [a];
      var one: seq<Action>, none: seq<Action> := [a], [];
      assert one[1..] == none;
    } else {
      TailOfAppend(actions, [a]);
      RunSnoc(Apply(st, actions[0]), actions[1..], a);
    }
  }

  datatype ArchiveError = BadName | IndexRejected | NoFile

  datatype ReadError = NotFound | BadIndex | Mismatch

  class GroupLog {
    var archive: Bytes
    var files: map<Source, Bytes>
    var rows: map<Source, Row>
    var stream: seq<StreamRow>
    ghost var op: Op
    ghost var written: map<Source, Bytes>
    ghost var fed: seq<(Source, Bytes)>
    ghost var actions: seq<Action>  // every externally visible step so far

    ghost function Now(): Store
      reads this
    {
      Store(archive, files, rows, stream, op, written, fed)
    }

    /** The object is in a state of the store machine, reached by the recorded steps. */
    ghost predicate Valid()
      reads this
    {
      ValidRun(EMPTY, actions) && Exec(EMPTY, actions) == Now()
    }

    constructor ()
      ensures Valid() && op.Idle? && actions == [] && Now() == EMPTY
    {
      archive, files, rows, stream, op, written, fed, actions := [], map[], map[], [], Idle, map[], [], [];
    }

    /** Record a step and the ghost part of its effect. */
    ghost method Step(a: Action)
      requires Valid() && Enabled(Now(), a)
      modifies `actions
      ensures ValidRun(EMPTY, actions) && Exec(EMPTY, actions) == Apply(old(Now()), a) && actions == old(actions) + [a]
    {
      hide Enabled, Apply;
      RunSnoc(EMPTY, actions, a);
      actions := actions + [a];
    }

    /** A closed source file appears or is rewritten. */
    method WriteSource(s: Source, content: Bytes)
      requires Valid() && op.Idle?
      modifies this
      ensures Valid() && op.Idle? && files == old(files)[s := content]
      ensures archive == old(archive) && rows == old(rows) && stream == old(stream)
              && actions == old(actions) + [WriteFile(s, content)]
    {
      Step(WriteFile(s, content));
      files := files[s := content];
      written := written[s := content];
    }

    /** Append a piece of what the archiving operation still has to write. */
    method Put(data: Bytes)
      requires Valid() && op.Writing? && data <= op.todo
      modifies `archive, `op, `actions
      ensures Valid() && op == old(op).(todo := old(op).todo[|data|..]) && archive == old(archive) + data
      ensures old(actions) <= actions
    {
      hide ValidRun, Exec;
      if data != [] {
        Step(WritePiece(|data|));
        archive := archive + data;
        op := op.(todo := op.todo[|data|..]);
      }
    }

    /** The file's bytes in chunks; the rest of what is to be written stays. */
    method CopyBody(content: Bytes, ghost after: Bytes)
      requires Valid() && op.Writing? && op.todo == content + after
      modifies `archive, `op, `actions
      ensures Valid() && op == old(op).(todo := after) && archive == old(archive) + content
      ensures old(actions) <= actions
    {
      hide Valid;
      var i := 0;
      assert content[0..] == content && content[..0] == [];
      while i < |content|
        invariant 0 <= i <= |content|
        invariant Valid() && op == old(op).(todo := content[i..] + after)
        invariant archive == old(archive) + content[..i]
        invariant old(actions) <= actions
      {
        var next := Min(i + CHUNK, |content|);
        NextChunk(content, i, next, after);
        Regroup(old(archive), content[..i], content[i..next]);
        Put(content[i..next]);
        i := next;
      }
      assert content[|content|..] + after == after && content[..|content|] == content;
    }

    method StartArchive(s: Source, banner: Bytes) returns (offset: nat)
      requires Valid() && op.Idle? && !Refused(Now(), s) && !AlreadyArchived(Now(), s)
      modifies `op, `actions
      ensures offset == |archive| + |banner|
      ensures Valid() && op == Writing(s, |archive|, offset, files[s], banner + files[s] + [NEWLINE])
      ensures actions == old(actions) + [BeginArchive(s, banner)]
    {
      hide ValidRun, Exec, AlreadyArchived, Refused;
      assert s in files by { Unrefused(Now(), s); }
      Step(BeginArchive(s, banner));
      offset := |archive| + |banner|;
      op := Writing(s, |archive|, offset, files[s], banner + files[s] + [NEWLINE]);
    }

    /** Banner, the file in chunks, a final newline. */
    method CopyIntoArchive(s: Source, banner: Bytes) returns (offset: nat)
      requires Valid() && op.Idle? && !Refused(Now(), s) && !AlreadyArchived(Now(), s)
      modifies `archive, `op, `actions
      ensures offset == |old(archive)| + |banner| && Valid() && op == Writing(s, |old(archive)|, offset, files[s], [])
      ensures old(archive) <= archive
      ensures old(actions) <= actions
    {
      hide Valid, AlreadyArchived;
      offset := StartArchive(s, banner);
      Regroup(banner, files[s], [NEWLINE]);
      Put(banner);
      assert (banner + (files[s] + [NEWLINE]))[|banner|..] == files[s] + [NEWLINE];
      CopyBody(files[s], [NEWLINE]);
      Put([NEWLINE]);
    }

    /** Verify the copied range; it always matches, see VerifySucceeds. */
    method VerifyCopy(s: Source, offset: nat) returns (row: Row)
      requires Valid() && op.Writing? && op.source == s && op.offset == offset && op.todo == []
      requires OpHolds(Now())
      modifies `op, `actions
      ensures Valid() && op == Verified(s, row) && RowHolds(archive, row) && RangeOf(archive, row) == files[s]
      ensures old(actions) <= actions
    {
      VerifySucceeds(Now());
      hide ValidRun, Exec, OpHolds, RowHolds;
      row := Row(offset, |files[s]|, Sha256(files[s]));
      assert op.content == files[s] && RangeOf(archive, row) == files[s];
      Step(Verify);
      op := Verified(s, row);
    }

    /** Commit the index row, then remove the file. */
    method CommitAndUnlink(s: Source, row: Row)
      requires Valid() && op == Verified(s, row) && s in files
      modifies `rows, `files, `op, `actions
      ensures Valid() && op.Idle? && files == old(files) - {s} && rows == old(rows)[s := row]
      ensures old(actions) <= actions
    {
      hide ValidRun, Exec;
      Step(Commit);
      rows := rows[s := row];
      op := Unlinking(s);
      Step(Unlink);
      files := files - {s};
      op := Idle;
    }

    /**
      `_archive_file`: the file ends up as a verified range of the archive, and is removed only then. Readers
      see no difference exactly when the name is free of line boundaries.
     */
    method ArchiveFile(s: Source, banner: Bytes) returns (r: Result<Row, ArchiveError>)
      requires Valid() && op.Idle?
      modifies this
      ensures Valid() && op.Idle? && old(actions) <= actions
      ensures r.Ok? <==> Accepted(s) && Readable(old(rows)) && s in old(files)
      ensures r.Err? ==> Now() == old(Now())
      ensures r == Err(IndexRejected) <==> Accepted(s) && !Readable(old(rows))
      ensures r.Ok? ==>
                && files == old(files) - {s} && rows == old(rows)[s := r.value]
                && RowHolds(archive, r.value) && RangeOf(archive, r.value) == old(files[s])
      ensures r.Ok? ==> ((forall t :: Content(Now(), t) == Content(old(Now()), t)) <==> LogIndex.Clean(s))
      ensures r.Ok? && !LogIndex.Clean(s) ==> forall t :: t !in files ==> Content(Now(), t) == None
      ensures old(archive) <= archive && stream == old(stream)
      ensures AlreadyArchived(old(Now()), s) ==> archive == old(archive)
    {
      hide ValidRun, Exec, RowsHold, StreamHolds, NothingLost, Content, Readable;
      if !Accepted(s) {
        return Err(BadName);
      }
      if !Readable(rows) {
        return Err(IndexRejected);
      }
      if s !in files {
        return Err(NoFile);
      }
      ghost var before := Now();
      EmptyInv();
      RunKeeps(EMPTY, actions);
      var row := ArchiveAccepted(s, banner);
      RunKeeps(EMPTY, actions);
      ArchivingIsSafe(before, Now(), s);
      r := Ok(row);
    }

    /** What is left once the name, the index and the file are there. */
    method ArchiveAccepted(s: Source, banner: Bytes) returns (row: Row)
      requires Valid() && op.Idle? && Inv(Now()) && !Refused(Now(), s)
      modifies this
      ensures Valid() && op.Idle? && old(actions) <= actions && written == old(written)
      ensures files == old(files) - {s} && rows == old(rows)[s := row]
      ensures RowHolds(archive, row) && RangeOf(archive, row) == old(files[s])
      ensures old(archive) <= archive && stream == old(stream)
      ensures AlreadyArchived(old(Now()), s) ==> archive == old(archive)
    {
      hide ValidRun, Exec, RowsHold, StreamHolds, NothingLost, Readable;
      if AlreadyArchivedNow(s) {
        row := rows[s];
        Step(BeginArchive(s, banner));
        op := Unlinking(s);
        Step(Unlink);
        files := files - {s};
        op := Idle;
        assert rows == rows[s := row];
      } else {
        var offset := CopyIntoArchive(s, banner);
        RunKeeps(EMPTY, actions) by { EmptyInv(); }
        row := VerifyCopy(s, offset);
        CommitAndUnlink(s, row);
      }
    }

    predicate AlreadyArchivedNow(s: Source)
      reads this
      ensures AlreadyArchivedNow(s) <==> AlreadyArchived(Now(), s)
    {
      && s in files && s in rows && |files[s]| == rows[s].length && Sha256(files[s]) == rows[s].digest
      && RowHolds(archive, rows[s])
    }

    /** Writes may be short; one that makes no progress fails and leaves what was written. */
    method WriteFeed(data: Bytes) returns (ok: bool)
      requires Valid() && op.Feeding? && op.rest == data
      modifies `archive, `op, `actions
      ensures Valid() && old(actions) <= actions
      ensures ok ==> op == old(op).(rest := []) && archive == old(archive) + data
      ensures !ok ==> op.Idle?
      ensures old(archive) <= archive <= old(archive) + data
    {
      hide ValidRun, Exec;
      var view := data;
      while view != []
        invariant Valid() && op == old(op).(rest := view)
        invariant archive + view == old(archive) + data
        invariant old(archive) <= archive && old(actions) <= actions
        decreases |view|
      {
        var count: nat :| count <= |view|;
        if count == 0 {
          Step(Crash);
          op := Idle;
          return false;
        }
        Step(FeedPiece(count));
        archive := archive + view[..count];
        view := view[count..];
        op := op.(rest := view);
      }
      ok := true;
    }

    /** The index line of a feed whose bytes are written. */
    method IndexFeed(source: Option<Source>, data: Bytes, at: nat)
      requires Valid() && op == Feeding(source, data, at, [])
      modifies `stream, `fed, `op, `actions
      ensures Valid() && op.Idle? && old(actions) <= actions
      ensures source.Some? ==>
                && stream == old(stream) + [StreamRow(source.value, Row(at, |data|, Sha256(data)))]
                && fed == old(fed) + [(source.value, data)]
      ensures source.None? ==> stream == old(stream) && fed == old(fed)
    {
      hide ValidRun, Exec;
      Step(FeedCommit);
      op := Idle;
      if source.Some? {
        stream := stream + [StreamRow(source.value, Row(at, |data|, Sha256(data)))];
        fed := fed + [(source.value, data)];
      }
    }

    /** `feed` and `_append`: refuse a bad name, else write the bytes, however short the writes are, then index them. */
    method Append(source: Option<Source>, data: Bytes) returns (ok: bool)
      requires Valid() && op.Idle?
      modifies this
      ensures Valid() && op.Idle? && old(actions) <= actions
      ensures files == old(files) && rows == old(rows)
      ensures ok ==> archive == old(archive) + data
      ensures ok && source.Some? ==>
                stream == old(stream) + [StreamRow(source.value, Row(|old(archive)|, |data|, Sha256(data)))]
                && fed == old(fed) + [(source.value, data)]
      ensures !ok || source.None? ==> stream == old(stream) && fed == old(fed)
      ensures source.Some? && !Accepted(source.value) ==> !ok && Now() == old(Now())
      ensures old(archive) <= archive <= old(archive) + data
    {
      hide ValidRun, Exec, Accepted;
      if source.Some? && !Accepted(source.value) {
        return false;
      }
      if data == [] && source.None? {
        return true;
      }
      var at := |archive|;
      Step(BeginFeed(source, data));
      op := Feeding(source, data, |archive|, data);
      ok := WriteFeed(data);
      if ok {
        IndexFeed(source, data, at);
      }
    }

    /** The legacy branch of `read_log_text`: the file, else the row found in the index, if the index parses. */
    method ReadLogText(s: Source, limit: Option<nat>) returns (r: Result<Bytes, ReadError>)
      requires Valid()
      ensures r.Ok? <==> Content(Now(), s).Some?
      ensures r.Ok? ==> r.value <= Content(Now(), s).value
      ensures r.Ok? && limit.Some? ==> |r.value| == Min(|Content(Now(), s).value|, limit.value)
      ensures r.Ok? && limit.None? ==> r.value == Content(Now(), s).value
      ensures r == Err(BadIndex) <==> s !in files && !Readable(rows)
    {
      hide Readable;
      if s in files {
        r := Ok(Cut(files[s], limit));
      } else if !Readable(rows) {
        r := Err(BadIndex);
      } else if s !in rows {
        r := Err(NotFound);
      } else if !RowHolds(archive, rows[s]) {
        r := Err(Mismatch);
      } else {
        var row := rows[s];
        var amount := if limit.None? then row.length else Min(row.length, limit.value);
        assert archive[row.offset..row.offset + amount] == RangeOf(archive, row)[..amount];
        r := Ok(archive[row.offset..row.offset + amount]);
        assert RangeOf(archive, row)[..row.length] == RangeOf(archive, row);
      }
    }
  }

  lemma Unrefused(st: Store, s: Source)
    requires !Refused(st, s)
    ensures s in st.files
  {
  }

  lemma NextChunk(content: Bytes, i: nat, next: nat, after: Bytes)
    requires i <= next <= |content|
    ensures content[i..next] <= content[i..] + after
    ensures (content[i..] + after)[next - i..] == content[next..] + after
    ensures content[..i] + content[i..next] == content[..next]
  {
  }

  function Cut(data: Bytes, limit: Option<nat>): Bytes {
    if limit.None? || |data| <= limit.value then data else data[..limit.value]
  }
}
