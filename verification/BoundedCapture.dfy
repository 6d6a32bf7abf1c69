/** The bounded head and tail window over command output (`_BoundedTextCapture`). */
module BoundedCapture {
  import opened Bytes

  function HeadLimit(limit: nat): nat {
    limit / 2
  }

  function TailLimit(limit: nat): nat {
    limit - HeadLimit(limit)
  }

  /** The prefix of the stream that fits the head. */
  function HeadOf(stream: Bytes, limit: nat): Bytes {
    stream[..Min(|stream|, HeadLimit(limit))]
  }

  function LastBytes(s: Bytes, n: nat): Bytes {
    if |s| > n then s[|s| - n..] else s
  }

  /** The last bytes of what follows the head, as many as fit the tail. */
  function TailOf(stream: Bytes, limit: nat): Bytes {
    LastBytes(stream[|HeadOf(stream, limit)|..], TailLimit(limit))
  }

  /** What rendering shows: the whole stream, or both ends and the number of bytes between them. */
  datatype Rendering = Whole(text: Bytes) | Omitted(head: Bytes, omitted: nat, tail: Bytes)

  function Rendered(stream: Bytes, limit: nat): Rendering {
    if |stream| > limit then Omitted(HeadOf(stream, limit), |stream| - limit, TailOf(stream, limit))
    else Whole(stream)
  }

  class Capture {
    const limit: nat
    var head: Bytes
    var tail: Bytes
    var totalBytes: nat
    ghost var stream: Bytes  // everything fed so far

    ghost predicate Valid()
      reads this
    {
      head == HeadOf(stream, limit) && tail == TailOf(stream, limit) && totalBytes == |stream|
    }

    constructor (limit: nat)
      ensures Valid() && stream == [] && this.limit == limit
    {
      this.limit := limit;
      head, tail, totalBytes, stream := [], [], 0, [];
    }

    method Feed(value: Bytes)
      requires Valid()
      modifies this
      ensures Valid() && stream == old(stream) + value
    {
      hide LastBytes, HeadLimit;
      var chunk := value;
      totalBytes := totalBytes + |chunk|;
      var needed := HeadLimit(limit) - |head|;
      if needed > 0 {
        var taken := Min(needed, |chunk|);
        head := head + chunk[..taken];
        chunk := chunk[taken..];
      }
      tail := tail + chunk;
      tail := DropOverflow(tail, TailLimit(limit));
      stream := stream + value;
      WindowMoves(old(stream), value, limit);
      assert value[0..] == value && value[..0] == [];
    }

    method Truncated() returns (r: bool)
      requires Valid()
      ensures r <==> |stream| > limit
    {
      r := totalBytes > limit;
    }

    method Render() returns (r: Rendering)
      requires Valid()
      ensures r == Rendered(stream, limit)
      ensures |stream| <= limit ==> r == Whole(stream)
      ensures |stream| > limit ==>
                r == Omitted(stream[..limit / 2], |stream| - limit, stream[|stream| - (limit - limit / 2)..])
    {
      if totalBytes > limit {
        WindowSizes(stream, limit);
        r := Omitted(head, totalBytes - |head| - |tail|, tail);
      } else {
        WindowSizes(stream, limit);
        r := Whole(head + tail);
      }
    }
  }

  method DropOverflow(tail: Bytes, limit: nat) returns (r: Bytes)
    ensures r == LastBytes(tail, limit)
  {
    r := tail;
    var overflow := |tail| - limit;
    if overflow > 0 {
      r := tail[overflow..];
    }
  }

  /** The two windows cover the stream exactly when it fits, and fill the limit exactly when it does not. */
  lemma WindowSizes(stream: Bytes, limit: nat)
    ensures |stream| <= limit ==> HeadOf(stream, limit) + TailOf(stream, limit) == stream
    ensures |stream| > limit ==> |HeadOf(stream, limit)| + |TailOf(stream, limit)| == limit
    ensures HeadOf(stream, limit) == stream[..|HeadOf(stream, limit)|]
    ensures TailOf(stream, limit) == stream[|stream| - |TailOf(stream, limit)|..]
    ensures |HeadOf(stream, limit)| <= HeadLimit(limit) && |TailOf(stream, limit)| <= TailLimit(limit)
  {
  }

  lemma LastOfAppend(a: Bytes, b: Bytes, n: nat)
    ensures LastBytes(LastBytes(a, n) + b, n) == LastBytes(a + b, n)
  {
    var l := LastBytes(a, n);
    assert l + b == (a + b)[|a| - |l|..];
  }

  /** The windows of a longer stream, computed from the windows of a shorter one. */
  lemma WindowMoves(stream: Bytes, value: Bytes, limit: nat)
    ensures var head, tail := HeadOf(stream, limit), TailOf(stream, limit);
            var taken := Min(HeadLimit(limit) - |head|, |value|);
            && HeadOf(stream + value, limit) == head + value[..taken]
            && TailOf(stream + value, limit) == LastBytes(tail + value[taken..], TailLimit(limit))
  {
    hide LastBytes;
    HeadMoves(stream, value, HeadLimit(limit));
    var head := HeadOf(stream, limit);
    var taken := Min(HeadLimit(limit) - |head|, |value|);
    LastOfAppend(stream[|head|..], value[taken..], TailLimit(limit));
  }

  lemma HeadMoves(stream: Bytes, value: Bytes, n: nat)
    ensures var h := Min(|stream|, n);
            var taken := Min(n - h, |value|);
            && (stream + value)[..Min(|stream| + |value|, n)] == stream[..h] + value[..taken]
            && (stream + value)[h + taken..] == stream[h..] + value[taken..]
  {
    if |stream| >= n {
      assert value[..0] == [] && value[0..] == value;
    } else {
      assert stream[..|stream|] == stream && stream[|stream|..] == [];
    }
  }

  /** Feeding the same bytes in any two divisions leaves the same capture. */
  method FeedAll(limit: nat, chunks: seq<Bytes>) returns (r: Rendering)
    ensures r == Rendered(Concat(chunks), limit)
    ensures var s := Concat(chunks);
            r == if |s| <= limit then Whole(s)
                 else Omitted(s[..limit / 2], |s| - limit, s[|s| - (limit - limit / 2)..])
  {
    var capture := new Capture(limit);
    assert chunks[..0] == [];
    for i := 0 to |chunks|
      invariant capture.Valid() && fresh(capture) && capture.limit == limit
      invariant capture.stream == Concat(chunks[..i])
    {
      assert chunks[..i + 1] == chunks[..i] + [chunks[i]];
      ConcatSnoc(chunks[..i], chunks[i]);
      capture.Feed(chunks[i]);
    }
    assert chunks[..|chunks|] == chunks;
    r := capture.Render();
  }
}
