/** The loops that write and read the framed log channel. */
module LogChannel {
  import opened Wrappers
  import opened Bytes
  import opened LogFrames

  /** The byte stream behind file descriptor 1. */
  class Channel {
    var written: Bytes

    constructor ()
      ensures written == []
    {
      written := [];
    }

    /** Writes may be short; one that makes no progress is an error. */
    method WriteAll(data: Bytes) returns (ok: bool)
      modifies this
      ensures ok ==> written == old(written) + data
      ensures old(written) <= written <= old(written) + data
    {
      var view := data;
      while view != []
        invariant written + view == old(written) + data
        invariant old(written) <= written
        decreases |view|
      {
        var count: nat :| count <= |view|;
        if count == 0 {
          return false;
        }
        written := written + view[..count];
        view := view[count..];
      }
      ok := true;
    }

    /** One header and its body. */
    method WriteFrame(c: Codec, id: Identity, source: Bytes, chunk: Bytes) returns (ok: bool)
      modifies this
      ensures ok ==> written == old(written) + FrameBytes(c, id, source, chunk)
      ensures old(written) <= written <= old(written) + FrameBytes(c, id, source, chunk)
    {
      hide HeaderLine;
      var header := [NEWLINE] + HeaderLine(c, id, source, chunk);
      assert old(written) + FrameBytes(c, id, source, chunk) == old(written) + header + chunk;
      ok := WriteAll(header);
      if ok {
        ok := WriteAll(chunk);
      }
    }

    /** `_append_channel`: raw bytes as they are, source bytes in frames of at most 64 KiB. */
    method Append(c: Codec, id: Identity, source: Option<Bytes>, data: Bytes) returns (ok: bool)
      modifies this
      ensures var e := if source.None? then Raw(data) else Feed(source.value, data);
              && (ok ==> written == old(written) + EmitOne(c, id, e))
              && old(written) <= written <= old(written) + EmitOne(c, id, e)
    {
      hide FrameBytes, Chunks, Frames;
      if source.None? {
        ok := WriteAll(data);
        return;
      }
      var start := 0;
      var more := true;
      assert data[0..] == data;
      while more
        invariant 0 <= start <= |data|
        invariant old(written) <= written
        invariant old(written) + Frames(c, id, source.value, Chunks(data))
               == written + (if more then Frames(c, id, source.value, Chunks(data[start..])) else [])
        decreases |data| - start, more
      {
        var chunk := data[start..Min(start + CHUNK, |data|)];
        FirstFrame(c, id, source.value, data[start..]);
        assert data[start..][..Min(CHUNK, |data| - start)] == chunk;
        ghost var frame := FrameBytes(c, id, source.value, chunk);
        ghost var before := written;
        if start + CHUNK < |data| {
          assert data[start..][CHUNK..] == data[start + CHUNK..];
          Regroup(before, frame, Frames(c, id, source.value, Chunks(data[start + CHUNK..])));
        } else {
          Regroup(before, frame, []);
        }
        ok := WriteFrame(c, id, source.value, chunk);
        if !ok {
          return;
        }
        if start + CHUNK < |data| {
          start := start + CHUNK;
        } else {
          more := false;
        }
      }
      ok := true;
    }
  }

  lemma FirstFrame(c: Codec, id: Identity, source: Bytes, data: Bytes)
    ensures Frames(c, id, source, Chunks(data)) ==
            FrameBytes(c, id, source, data[..Min(CHUNK, |data|)])
            + (if |data| > CHUNK then Frames(c, id, source, Chunks(data[CHUNK..])) else [])
  {
    hide FrameBytes;
    if |data| > CHUNK {
      var tail := Chunks(data[CHUNK..]);
      assert ([data[..CHUNK]] + tail)[1..] == tail;
    } else {
      assert data[..|data|] == data;
      assert [data][1..] == [];
    }
  }

  /** `log_frames` */
  method ReadLogFrames(c: Codec, id: Identity, archive: Bytes, start: nat, end: nat) returns (r: Parsed)
    requires start <= end <= |archive|
    ensures r == Parse(c, id, archive, start, end, true)
  {
    hide ParseHeader, LineLength, GENERIC, Cons;
    var result: seq<Record> := [];
    var pos, atLineStart := start, true;
    assert After([], Parse(c, id, archive, start, end, true)) == Parse(c, id, archive, start, end, true) by {
      var p := Parse(c, id, archive, start, end, true);
      if p.Ok? { assert [] + p.value == p.value; }
    }
    while pos < end
      invariant start <= pos <= end
      invariant Parse(c, id, archive, start, end, true) == After(result, Parse(c, id, archive, pos, end, atLineStart))
      decreases end - pos
    {
      var n := LineLength(archive[pos..end]);
      var line := archive[pos..pos + n];
      if atLineStart && GENERIC <= line {
        var header := ParseHeader(c, id, line);
        if header.Err? {
          return Err(header.error);
        }
        var (source, length, sha) := header.value;
        var offset := pos + n;
        if offset + length > end {
          return Err(IncompleteBody);
        }
        if c.digest(archive[offset..offset + length]) != sha {
          return Err(ChecksumMismatch);
        }
        AfterCons(result, Record(source, offset, length, sha),
            Parse(c, id, archive, offset + length, end, length == 0));
        result := result + [Record(source, offset, length, sha)];
        pos, atLineStart := offset + length, length == 0;
      } else {
        pos, atLineStart := pos + n, line[n - 1] == NEWLINE;
      }
    }
    assert result + [] == result;
    r := Ok(result);
  }
}
