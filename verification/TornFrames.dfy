/**
  The framed channel after a failed write: `_append_channel` may raise with a prefix of a frame written,
  and the lock is then free for the next writer.
 */
module TornFrames {
  import opened Wrappers
  import opened Bytes
  import opened Decimal
  import opened LogFrames

  // ---------------------------------------------------------------- what was written before a torn frame

  /** Gaps and good frames are read as usual, whatever follows them on the next line. */
  lemma {:induction false} ReadGoodItems(c: Codec, id: Identity, archive: Bytes, pos: nat, end: nat, atLineStart: bool,
                                         gap: Bytes, items: seq<Item>, tail: Bytes)
    requires Lawful(c) && ValidIdentity(id)
    requires pos <= end <= |archive| && archive[pos..end] == (gap + ItemBytes(c, id, items)) + ([NEWLINE] + tail)
    requires NoMarkerLine(gap, atLineStart) && forall item :: item in items ==> GoodItem(c, id, item)
    ensures |tail| <= end
    ensures Parse(c, id, archive, pos, end, atLineStart) ==
            After(Expected(c, id, pos + |gap|, items), Parse(c, id, archive, end - |tail|, end, true))
    decreases |items|
  {
    hide Parse, NoMarkerLine, HeaderLine, GoodItem, GENERIC, SafeSource, Expected, Cons, After, Rename, ItemBytes;
    hide IndexOf, Lawful;
    var g := gap + [NEWLINE];
    GapNewline(gap, atLineStart);
    assert |archive[pos..end]| == end - pos;
    if items == [] {
      assert archive[pos..end] == g + tail by { NoItems(c, id, gap); Regroup(gap, [NEWLINE], tail); }
      Piece(archive, pos, end, g, tail);
      ReadGap(c, id, archive, pos, g, end, atLineStart);
      NothingExpected(c, id, pos + |gap|, Parse(c, id, archive, end - |tail|, end, true));
    } else {
      var it, h := items[0], HeaderLine(c, id, items[0].source, items[0].body);
      var rest := (it.gap + ItemBytes(c, id, items[1..])) + ([NEWLINE] + tail);
      FirstItem(c, id, gap, items, [NEWLINE] + tail);
      HeaderShape(c, id, it.source, it.body);
      Locate(archive, pos, end, g, h, it.body, rest);
      ReadGap(c, id, archive, pos, g, end, atLineStart);
      var at := pos + |g|;
      var next := at + |h| + |it.body|;
      ReadFrame(c, id, archive, at, end, it.source, it.body);
      GoodFrame(c, id, it);
      assert it in items;
      ReadGoodItems(c, id, archive, next, end, it.body == [], it.gap, items[1..], tail);
      ExpectedFirst(c, id, pos + |gap|, items, Parse(c, id, archive, end - |tail|, end, true));
    }
  }

  lemma NothingExpected(c: Codec, id: Identity, pos: nat, rest: Parsed)
    ensures After(Expected(c, id, pos, []), rest) == rest
  {
    if rest.Ok? { assert [] + rest.value == rest.value; }
  }

  lemma FirstItem(c: Codec, id: Identity, gap: Bytes, items: seq<Item>, tail: Bytes)
    requires items != []
    ensures var it, h := items[0], HeaderLine(c, id, items[0].source, items[0].body);
            (gap + ItemBytes(c, id, items)) + tail
            == (gap + [NEWLINE]) + (h + (it.body + ((it.gap + ItemBytes(c, id, items[1..])) + tail)))
  {
    hide HeaderLine;
    var it, h := items[0], HeaderLine(c, id, items[0].source, items[0].body);
    var rest := it.gap + ItemBytes(c, id, items[1..]);
    assert FrameBytes(c, id, it.source, it.body) == [NEWLINE] + h + it.body;
    Rejoin(gap, h, it.body, rest);
    FourPieces(gap + [NEWLINE], h, it.body, rest, tail);
  }

  lemma FourPieces(a: Bytes, b: Bytes, c: Bytes, d: Bytes, e: Bytes)
    ensures (a + (b + (c + d))) + e == a + (b + (c + (d + e)))
  {
  }

  lemma GoodFrame(c: Codec, id: Identity, it: Item)
    requires GoodItem(c, id, it)
    ensures |HeaderLine(c, id, it.source, it.body)| <= LINE_LIMIT && SafeSource(id, Rename(id, it.source))
    ensures NoMarkerLine(it.gap, it.body == [])
  {
  }

  lemma ExpectedFirst(c: Codec, id: Identity, pos: nat, items: seq<Item>, rest: Parsed)
    requires items != []
    ensures var it := items[0];
            var offset := pos + 1 + |HeaderLine(c, id, it.source, it.body)|;
            Cons(Record(Rename(id, it.source), offset, |it.body|, c.digest(it.body)),
                 After(Expected(c, id, offset + |it.body| + |it.gap|, items[1..]), rest))
            == After(Expected(c, id, pos, items), rest)
  {
    hide HeaderLine, Rename;
    var it := items[0];
    var offset := pos + 1 + |HeaderLine(c, id, it.source, it.body)|;
    var first := Record(Rename(id, it.source), offset, |it.body|, c.digest(it.body));
    var tail := Expected(c, id, offset + |it.body| + |it.gap|, items[1..]);
    if rest.Ok? { Regroup([first], tail, rest.value); }
  }

  /** The records of everything written before come first, unless the scan fails on what follows. */
  lemma ReadBefore(c: Codec, id: Identity, events: seq<Event>, archive: Bytes, start: nat, end: nat, tail: Bytes)
    requires Lawful(c) && ValidIdentity(id) && Recognisable(c, id, events)
    requires start <= end <= |archive| && archive[start..end] == Emit(c, id, events) + ([NEWLINE] + tail)
    ensures |tail| <= end
    ensures Parse(c, id, archive, start, end, true) ==
            After(ExpectedRecords(c, id, start, events), Parse(c, id, archive, end - |tail|, end, true))
  {
    hide Parse, Emit, Normal, NoMarkerLine, GoodItem, Expected;
    EmitNormal(c, id, events);
    ReadGoodItems(c, id, archive, start, end, true, Normal(events).0, Normal(events).1, tail);
  }

  // ---------------------------------------------------------------- a torn body

  ghost predicate GoodHeader(c: Codec, id: Identity, source: Bytes, body: Bytes) {
    |HeaderLine(c, id, source, body)| <= LINE_LIMIT && SafeSource(id, Rename(id, source))
  }

  /**
    Main result: a frame whose body was cut off takes its missing bytes from whatever was written next. The scan
    fails when they are too few or have another checksum, and otherwise goes on behind them; the records before
    the torn frame are never touched.
   */
  lemma TornBody(c: Codec, id: Identity, events: seq<Event>, source: Bytes, body: Bytes, rest: Bytes,
                 archive: Bytes, start: nat, end: nat)
    requires Lawful(c) && ValidIdentity(id) && Recognisable(c, id, events) && GoodHeader(c, id, source, body)
    requires start <= end <= |archive|
    requires archive[start..end] == Emit(c, id, events) + ([NEWLINE] + (HeaderLine(c, id, source, body) + rest))
    ensures |rest| <= end
    ensures var offset := end - |rest|;
            Parse(c, id, archive, start, end, true) ==
            if |rest| < |body| then Err(IncompleteBody)
            else if c.digest(rest[..|body|]) != c.digest(body) then Err(ChecksumMismatch)
            else After(ExpectedRecords(c, id, start, events)
                + [Record(Rename(id, source), offset, |body|, c.digest(body))],
                       Parse(c, id, archive, offset + |body|, end, body == []))
  {
    hide Parse, Emit, Recognisable, ExpectedRecords, HeaderLine, GoodHeader;
    var tail := HeaderLine(c, id, source, body) + rest;
    ReadBefore(c, id, events, archive, start, end, tail);
    Regroup(Emit(c, id, events), [NEWLINE], tail);
    LastPart(archive, start, end, Emit(c, id, events) + [NEWLINE], tail);
    ReadTorn(c, id, source, body, rest, archive, end - |tail|, end);
    if |rest| >= |body| {
      var offset := end - |rest|;
      AfterCons(ExpectedRecords(c, id, start, events), Record(Rename(id, source), offset, |body|, c.digest(body)),
                Parse(c, id, archive, offset + |body|, end, body == []));
    }
  }

  /** A good header followed by any bytes. */
  lemma ReadTorn(c: Codec, id: Identity, source: Bytes, body: Bytes, rest: Bytes, archive: Bytes, at: nat, end: nat)
    requires Lawful(c) && ValidIdentity(id) && GoodHeader(c, id, source, body)
    requires at <= end <= |archive| && archive[at..end] == HeaderLine(c, id, source, body) + rest
    ensures at == end - |HeaderLine(c, id, source, body)| - |rest|
    ensures var offset := end - |rest|;
            Parse(c, id, archive, at, end, true) ==
            if |rest| < |body| then Err(IncompleteBody)
            else if c.digest(rest[..|body|]) != c.digest(body) then Err(ChecksumMismatch)
            else Cons(Record(Rename(id, source), offset, |body|, c.digest(body)),
                      Parse(c, id, archive, offset + |body|, end, body == []))
  {
    hide Parse, HeaderLine, SafeSource, LineLength, GENERIC, Lawful, ValidIdentity, ParseHeader, Rename;
    var h := HeaderLine(c, id, source, body);
    assert |archive[at..end]| == end - at;
    Piece(archive, at, end, h, rest);
    HeaderShape(c, id, source, body);
    FirstPiece(h, rest);
    WholeLine(h);
    ParsesItsHeader(c, id, source, body);
    ReadMarkedLine(c, id, archive, at, end, h);
    if |rest| >= |body| {
      var offset := end - |rest|;
      assert archive[offset..offset + |body|] == rest[..|body|];
    }
  }

  lemma LastPart(archive: Bytes, start: nat, end: nat, a: Bytes, b: Bytes)
    requires start <= end <= |archive| && archive[start..end] == a + b
    ensures |b| <= end && archive[end - |b|..end] == b
  {
    Piece(archive, start, end, a, b);
  }

  /** The checksums of two bodies tell them apart. */
  predicate ToldApart(c: Codec, a: Bytes, b: Bytes) {
    c.digest(a) == c.digest(b) ==> a == b
  }

  /** Main result: unless two checksums collide, a scan that succeeds has found the whole body of the frame. */
  lemma TornBodyIsComplete(c: Codec, id: Identity, events: seq<Event>, source: Bytes, body: Bytes, rest: Bytes,
                           archive: Bytes, start: nat, end: nat)
    requires Lawful(c) && ValidIdentity(id) && Recognisable(c, id, events) && GoodHeader(c, id, source, body)
    requires start <= end <= |archive| && (|body| <= |rest| ==> ToldApart(c, rest[..|body|], body))
    requires archive[start..end] == Emit(c, id, events) + ([NEWLINE] + (HeaderLine(c, id, source, body) + rest))
    ensures Parse(c, id, archive, start, end, true).Ok? ==> body <= rest
  {
    hide Parse, Emit, Recognisable, ExpectedRecords, HeaderLine, GoodHeader;
    TornBody(c, id, events, source, body, rest, archive, start, end);
  }

  // ---------------------------------------------------------------- a torn header

  /** The next bytes in the stream, if any, start a new line: a frame does, and so does every raw write. */
  ghost predicate StartsLine(next: Bytes) {
    next == [] || next[0] == NEWLINE
  }

  /**
    Main result: a header cut off before its marker is complete is read as plain text when a new line or nothing
    follows, and every complete frame is still found.
   */
  lemma TornMarker(c: Codec, id: Identity, events: seq<Event>, later: seq<Event>, source: Bytes, body: Bytes, m: nat,
                   archive: Bytes, start: nat, end: nat)
    requires Lawful(c) && ValidIdentity(id) && Recognisable(c, id, events) && Recognisable(c, id, later)
    requires m < |GENERIC| && StartsLine(Emit(c, id, later)) && start <= end <= |archive|
    requires m <= |HeaderLine(c, id, source, body)|
    requires archive[start..end] ==
             Emit(c, id, events) + ([NEWLINE] + (HeaderLine(c, id, source, body)[..m] + Emit(c, id, later)))
    ensures |Emit(c, id, later)| <= end
    ensures Parse(c, id, archive, start, end, true) ==
            Ok(ExpectedRecords(c, id, start, events) + ExpectedRecords(c, id, end - |Emit(c, id, later)|, later))
  {
    hide Parse, Emit, Recognisable, ExpectedRecords, HeaderLine, GENERIC;
    var cut, next := HeaderLine(c, id, source, body)[..m], Emit(c, id, later);
    ReadBefore(c, id, events, archive, start, end, cut + next);
    Regroup(Emit(c, id, events), [NEWLINE], cut + next);
    LastPart(archive, start, end, Emit(c, id, events) + [NEWLINE], cut + next);
    CutIsPlain(c, id, source, body, m);
    ReadAfterCut(c, id, later, cut, archive, end - |cut + next|, end);
  }

  lemma CutIsPlain(c: Codec, id: Identity, source: Bytes, body: Bytes, m: nat)
    requires Lawful(c) && ValidIdentity(id) && m < |GENERIC| && m <= |HeaderLine(c, id, source, body)|
    ensures NEWLINE !in HeaderLine(c, id, source, body)[..m]
  {
    hide GENERIC;
    HeaderShape(c, id, source, body);
    hide HeaderLine;
  }

  /** A short cut and the line that follows it hold no marker that was not there before. */
  lemma CutGap(cut: Bytes, gap: Bytes)
    requires |cut| < |GENERIC| && NEWLINE !in cut && StartsLine(gap) && NoMarkerLine(gap, true)
    ensures NoMarkerLine(cut + gap, true)
  {
    hide GENERIC;
    var g := cut + gap;
    assert forall k :: 0 <= k < |cut| ==> g[k] == cut[k] && g[k] != NEWLINE;
    forall p: nat | p < |g| && (p == 0 || g[p - 1] == NEWLINE) ensures !MarkerAt(g, p) {
      if p > |cut| {
        var q := p - |cut|;
        assert g[p..] == gap[q..] && g[p - 1] == gap[q - 1];
        assert !MarkerAt(gap, q);
      } else if p == |cut| {
        assert g[p..] == gap && gap[0] == NEWLINE;
        MarkerStart(gap);
      } else {
        assert g[0..] == g;
        ShortMarker(cut, gap);
      }
    }
  }

  lemma MarkerStart(s: Bytes)
    requires s != [] && s[0] == NEWLINE
    ensures !(GENERIC <= s)
  {
    assert GENERIC[0] != NEWLINE;
  }

  lemma ShortMarker(cut: Bytes, gap: Bytes)
    requires |cut| < |GENERIC| && StartsLine(gap)
    ensures !(GENERIC <= cut + gap)
  {
    MarkerHasNoNewline();
    if gap != [] {
      assert (cut + gap)[|cut|] == NEWLINE && GENERIC[|cut|] != NEWLINE;
    }
  }

  lemma ReadAfterCut(c: Codec, id: Identity, later: seq<Event>, cut: Bytes, archive: Bytes, at: nat, end: nat)
    requires Lawful(c) && ValidIdentity(id) && Recognisable(c, id, later) && StartsLine(Emit(c, id, later))
    requires |cut| < |GENERIC| && NEWLINE !in cut
    requires at <= end <= |archive| && archive[at..end] == cut + Emit(c, id, later)
    ensures |Emit(c, id, later)| <= end
    ensures Parse(c, id, archive, at, end, true) == Ok(ExpectedRecords(c, id, end - |Emit(c, id, later)|, later))
  {
    hide Parse, Emit, NoMarkerLine, GoodItem, Expected, Normal, ItemBytes, GENERIC;
    EmitNormal(c, id, later);
    var gap, items := Normal(later).0, Normal(later).1;
    assert |archive[at..end]| == end - at;
    Regroup(cut, gap, ItemBytes(c, id, items));
    assert StartsLine(gap) by { assert gap != [] ==> Emit(c, id, later)[0] == gap[0]; }
    CutGap(cut, gap);
    ReadItems(c, id, archive, at, end, true, cut + gap, items);
  }

  predicate BadHeader(r: Parsed) {
    r == Err(ForeignOrMalformed) || r == Err(InvalidHeader)
  }

  /**
    Main result: a header cut off anywhere behind its marker stops the scan when a frame or nothing follows, so a
    torn frame is never passed over. Only its final newline may come from the next frame.
   */
  lemma TornHeader(c: Codec, id: Identity, events: seq<Event>, source: Bytes, body: Bytes, m: nat, next: Bytes,
                   archive: Bytes, start: nat, end: nat)
    requires Lawful(c) && ValidIdentity(id) && Recognisable(c, id, events) && GoodHeader(c, id, source, body)
    requires |GENERIC| <= m < |HeaderLine(c, id, source, body)| && start <= end <= |archive|
    requires next == [] || (next[0] == NEWLINE && m < |HeaderLine(c, id, source, body)| - 1)
    requires archive[start..end] == Emit(c, id, events) + ([NEWLINE] + (HeaderLine(c, id, source, body)[..m] + next))
    ensures BadHeader(Parse(c, id, archive, start, end, true))
  {
    hide Parse, Emit, Recognisable, ExpectedRecords, HeaderLine, GoodHeader, GENERIC;
    var cut := HeaderLine(c, id, source, body)[..m];
    ReadBefore(c, id, events, archive, start, end, cut + next);
    Regroup(Emit(c, id, events), [NEWLINE], cut + next);
    LastPart(archive, start, end, Emit(c, id, events) + [NEWLINE], cut + next);
    ReadCut(c, id, source, body, m, next, archive, end - |cut + next|, end);
  }

  lemma ReadCut(c: Codec, id: Identity, source: Bytes, body: Bytes, m: nat, next: Bytes, archive: Bytes, at: nat,
      end: nat)
    requires Lawful(c) && ValidIdentity(id) && GoodHeader(c, id, source, body)
    requires |GENERIC| <= m < |HeaderLine(c, id, source, body)|
    requires next == [] || (next[0] == NEWLINE && m < |HeaderLine(c, id, source, body)| - 1)
    requires at <= end <= |archive| && archive[at..end] == HeaderLine(c, id, source, body)[..m] + next
    ensures BadHeader(Parse(c, id, archive, at, end, true))
  {
    assert m > 0;
    hide Parse, HeaderLine, SafeSource, GENERIC, Lawful, ParseHeader, LineLength, ValidIdentity;
    var h := HeaderLine(c, id, source, body);
    HeaderShape(c, id, source, body);
    CutLine(h, m, next);
    var line := if next == [] then h[..m] else h[..m] + [NEWLINE];
    FrontOf(archive, at, end, h[..m] + next, line);
    CutRefused(c, id, source, body, m, line);
    hide IndexOf, Digits;
    ReadMarkedLine(c, id, archive, at, end, line);
  }

  lemma FrontOf(archive: Bytes, at: nat, end: nat, text: Bytes, line: Bytes)
    requires at <= end <= |archive| && archive[at..end] == text && |line| <= |text| && text[..|line|] == line
              && line != []
    ensures at + |line| <= end && archive[at..at + |line|] == line && at < end
  {
    assert |archive[at..end]| == end - at;
    assert archive[at..at + |line|] == archive[at..end][..|line|];
  }

  lemma CutLine(h: Bytes, m: nat, next: Bytes)
    requires |GENERIC| <= m < |h| <= LINE_LIMIT && GENERIC <= h && IndexOf(h, NEWLINE) == |h| - 1
    requires next == [] || (next[0] == NEWLINE && m < |h| - 1)
    ensures var line := if next == [] then h[..m] else h[..m] + [NEWLINE];
            LineLength(h[..m] + next) == |line| && (h[..m] + next)[..|line|] == line && GENERIC <= line
  {
    var text := h[..m] + next;
    assert forall k :: 0 <= k < m ==> text[k] == h[k] && h[k] != NEWLINE;
    if next == [] {
      assert text == h[..m];
      assert IndexOf(text, NEWLINE) == m;
    } else {
      assert text[m] == NEWLINE;
      assert IndexOf(text, NEWLINE) == m;
    }
    assert h[..15] == GENERIC;
    assert text[..15] == h[..15];
  }

  /** A cut header has no final newline, or too few fields, or too short a checksum. */
  lemma CutRefused(c: Codec, id: Identity, source: Bytes, body: Bytes, m: nat, line: Bytes)
    requires Lawful(c) && ValidIdentity(id)
    requires var h := HeaderLine(c, id, source, body);
             m < |h| && m > 0 && (line == h[..m] || (line == h[..m] + [NEWLINE] && m < |h| - 1))
    ensures var r := ParseHeader(c, id, line); r == Err(ForeignOrMalformed) || r == Err(InvalidHeader)
  {
    hide HeaderBody, SafeSource, Rename, Digits;
    var h, prefix := HeaderLine(c, id, source, body), FramePrefix(id);
    HeaderShape(c, id, source, body);
    if line == h[..m] {
      assert line[|line| - 1] == h[m - 1] && h[m - 1] != NEWLINE;
    } else if prefix <= line {
      MarkerHasNoNewline();
      assert NEWLINE !in prefix;
      BeforeNewline(prefix, h[..m]);
      var part := HeaderBody(c, source, body)[..m - |prefix|];
      assert line[|prefix|..|line| - 1] == part;
      CutFields(c, source, body, m - |prefix|);
    }
  }

  lemma BeforeNewline(p: Bytes, a: Bytes)
    requires NEWLINE !in p && p <= a + [NEWLINE]
    ensures |p| <= |a|
  {
    if p != [] {
      var last := |p| - 1;
      assert p[last] in p && p[last] == (a + [NEWLINE])[last];
    }
  }

  lemma CutFields(c: Codec, source: Bytes, body: Bytes, k: nat)
    requires Lawful(c) && k < |HeaderBody(c, source, body)|
    ensures var fields := Split(HeaderBody(c, source, body)[..k], TAB);
            |fields| != 3 || !IsHex64(fields[2])
  {
    hide Digits, Split;
    var e, d, x := c.encode(source), Digits(|body|), c.digest(body);
    var all := e + [TAB] + (d + [TAB] + x);
    assert IsHex64(x) && |x| == 64;
    assert TAB !in d && TAB !in x;
    hide IsHex64;
    if k <= |e| {
      assert all[..k] == e[..k];
      SplitStep(e[..k], TAB, []);
    } else if k <= |e| + 1 + |d| {
      var more := d[..k - |e| - 1];
      assert all[..k] == e + [TAB] + more;
      SplitStep(e, TAB, more);
      SplitStep(more, TAB, []);
    } else {
      var more := x[..k - |e| - |d| - 2];
      assert all[..k] == e + [TAB] + (d + [TAB] + more);
      SplitStep(e, TAB, d + [TAB] + more);
      SplitStep(d, TAB, more);
      SplitStep(more, TAB, []);
      assert ([e] + ([d] + [more]))[2] == more;
      ShortHex(more);
    }
  }

  lemma ShortHex(s: Bytes)
    requires |s| < 64
    ensures !IsHex64(s)
  {
  }

  // ---------------------------------------------------------------- what a failed feed leaves

  /** Whole chunks that are all full are the chunks of their concatenation. */
  lemma {:induction false} FullChunks(data: Bytes, k: nat)
    requires 1 <= k < |Chunks(data)|
    ensures Chunks(Concat(Chunks(data)[..k])) == Chunks(data)[..k]
    decreases |data|
  {
    var all, first := Chunks(data), data[..CHUNK];
    var rest := Chunks(data[CHUNK..]);
    assert all == [first] + rest;
    assert all[..k] == [first] + rest[..k - 1];
    assert ([first] + rest[..k - 1])[1..] == rest[..k - 1];
    if k > 1 {
      FullChunks(data[CHUNK..], k - 1);
      var tail := Concat(rest[..k - 1]);
      NotEmpty(data[CHUNK..], k - 1);
      assert (first + tail)[..CHUNK] == first && (first + tail)[CHUNK..] == tail;
    } else {
      assert rest[..0] == [] && first + [] == first;
    }
  }

  lemma NotEmpty(data: Bytes, k: nat)
    requires 1 <= k < |Chunks(data)|
    ensures Concat(Chunks(data)[..k]) != []
  {
    var front := Chunks(data)[..k];
    assert front[0] == data[..CHUNK];
  }

  lemma {:induction false} FramesAppend(c: Codec, id: Identity, source: Bytes, a: seq<Bytes>, b: seq<Bytes>)
    ensures Frames(c, id, source, a + b) == Frames(c, id, source, a) + Frames(c, id, source, b)
  {
    hide FrameBytes;
    if a == [] {
      assert a + b == b;
    } else {
      TailOfAppend(a, b);
      FramesAppend(c, id, source, a[1..], b);
      Regroup(FrameBytes(c, id, source, a[0]), Frames(c, id, source, a[1..]), Frames(c, id, source, b));
    }
  }

  /** Any prefix of some frames is whole frames and a prefix of the next one. */
  lemma {:induction false} CutFrames(c: Codec, id: Identity, source: Bytes, chunks: seq<Bytes>, p: Bytes)
      returns (k: nat, n: nat)
    requires p <= Frames(c, id, source, chunks) && p != Frames(c, id, source, chunks)
    ensures k < |chunks| && n < |FrameBytes(c, id, source, chunks[k])|
    ensures p == Frames(c, id, source, chunks[..k]) + FrameBytes(c, id, source, chunks[k])[..n]
  {
    hide FrameBytes;
    var first := FrameBytes(c, id, source, chunks[0]);
    if |p| < |first| {
      k, n := 0, |p|;
      assert chunks[..0] == [] && [] + first[..n] == first[..n];
    } else {
      var rest := Frames(c, id, source, chunks[1..]);
      assert p == first + p[|first|..];
      assert p[|first|..] == (first + rest)[..|p|][|first|..] == rest[..|p| - |first|];
      k, n := CutFrames(c, id, source, chunks[1..], p[|first|..]);
      assert chunks[..k + 1][1..] == chunks[1..][..k];
      Regroup(first, Frames(c, id, source, chunks[1..][..k]), FrameBytes(c, id, source, chunks[1..][k])[..n]);
      k := k + 1;
    }
  }

  /**
    Main result: what a failed feed leaves in the stream is a completed feed of its first chunks and one torn
    frame.
   */
  lemma TornFeed(c: Codec, id: Identity, source: Bytes, data: Bytes, p: Bytes)
      returns (done: seq<Event>, body: Bytes, n: nat)
    requires p <= EmitOne(c, id, Feed(source, data)) && p != EmitOne(c, id, Feed(source, data))
    ensures n < |FrameBytes(c, id, source, body)|
    ensures p == Emit(c, id, done) + FrameBytes(c, id, source, body)[..n]
    ensures done == [] || (|done| == 1 && done[0].Feed? && done[0].source == source && done[0].data + body <= data)
    ensures done == [] ==> body <= data
  {
    hide Frames, FrameBytes;
    var chunks := Chunks(data);
    var k;
    k, n := CutFrames(c, id, source, chunks, p);
    body := chunks[k];
    ChunksConcat(data);
    ConcatPart(chunks, k);
    if k == 0 {
      done := [];
      assert chunks[..0] == [];
      assert Emit(c, id, []) == [] == Frames(c, id, source, []) by { NoFrames(c, id, source); }
    } else {
      FullChunks(data, k);
      done := [Feed(source, Concat(chunks[..k]))];
      assert done[1..] == [];
      EmitFirst(c, id, done);
      assert Emit(c, id, done) == EmitOne(c, id, done[0]) + [];
    }
  }

  lemma NoFrames(c: Codec, id: Identity, source: Bytes)
    ensures Frames(c, id, source, []) == []
  {
  }

  lemma {:induction false} ConcatPart(chunks: seq<Bytes>, k: nat)
    requires k < |chunks|
    ensures Concat(chunks[..k]) + chunks[k] <= Concat(chunks)
    ensures k == 0 ==> chunks[k] <= Concat(chunks)
  {
    hide Concat;
    var front, back := chunks[..k + 1], chunks[k + 1..];
    assert chunks == front + back by { Cut(chunks, k + 1); }
    assert front == chunks[..k] + [chunks[k]] by { LastOfPart(chunks, k); }
    ConcatAppend(front, back);
    ConcatSnoc(chunks[..k], chunks[k]);
    if k == 0 { FirstPart(chunks); }
  }

  lemma FirstPart(chunks: seq<Bytes>)
    requires chunks != []
    ensures Concat(chunks[..0]) + chunks[0] == chunks[0]
  {
    assert chunks[..0] == [];
    NothingConcat();
  }

  lemma Cut(chunks: seq<Bytes>, k: nat)
    requires k <= |chunks|
    ensures chunks == chunks[..k] + chunks[k..]
  {
  }

  lemma LastOfPart(chunks: seq<Bytes>, k: nat)
    requires k < |chunks|
    ensures chunks[..k + 1] == chunks[..k] + [chunks[k]]
  {
  }

  lemma NothingConcat()
    ensures Concat<Byte>([]) == []
  {
  }
}
