/**
  The framed log channel: `DirectGroupLog._append_channel` prints frames into one
  byte stream, `state_facts.log_frames` reads them back out of the archived range.
 */
module LogFrames {
  import opened Wrappers
  import opened Bytes
  import opened Decimal

  const LINE_LIMIT := 8192
  const SLASH: Byte := 47
  const BACKSLASH: Byte := 92
  /** `[HCU-LOG-CHUNK ` */
  const GENERIC: Bytes := [91, 72, 67, 85, 45, 76, 79, 71, 45, 67, 72, 85, 78, 75, 32]

  /** Base64 (with UTF-8) and SHA-256 in hexadecimal, of which only these laws are used. */
  datatype Codec = Codec(encode: Bytes -> Bytes, decode: Bytes -> Option<Bytes>, digest: Bytes -> Bytes)

  predicate IsHex64(s: Bytes) {
    |s| == 64 && forall k :: 0 <= k < 64 ==> IsDigit(s[k]) || 97 <= s[k] <= 102
  }

  ghost predicate Lawful(c: Codec) {
    && (forall s :: c.decode(c.encode(s)) == Some(s))
    && (forall s :: TAB !in c.encode(s) && NEWLINE !in c.encode(s))
    && (forall s :: IsHex64(c.digest(s)))
  }

  /** Who owns the log range: the task's token, its runtime directory and its logical prefix. */
  datatype Identity = Identity(token: Bytes, runtimeRoot: Bytes, logical: Bytes)

  predicate ValidIdentity(id: Identity) {
    NEWLINE !in id.token && TAB !in id.token
  }

  /** No source lies under both directories. */
  ghost predicate Separate(id: Identity) {
    !(id.runtimeRoot + [SLASH] <= id.logical + [SLASH]) && !(id.logical + [SLASH] <= id.runtimeRoot + [SLASH])
  }

  /** The directories of a group's task, in the prepare phase or in a stage. */
  function IdentityOf(token: Bytes, group: Bytes, stage: Option<Bytes>): Identity {
    Identity(token, Ascii("runtime/") + group,
             match stage
             case None => Ascii("prepared/") + group
             case Some(s) => Ascii("stages/") + s + Ascii("/groups/") + group)
  }

  lemma TasksAreSeparate(token: Bytes, group: Bytes, stage: Option<Bytes>)
    ensures Separate(IdentityOf(token, group, stage))
  {
    var id := IdentityOf(token, group, stage);
    assert id.runtimeRoot[0] == Ascii("runtime/")[0] == 114;
    assert id.logical[0] == if stage.None? then Ascii("prepared/")[0] else Ascii("stages/")[0];
    assert (id.runtimeRoot + [SLASH])[0] != (id.logical + [SLASH])[0];
  }

  function FramePrefix(id: Identity): Bytes {
    GENERIC + id.token + [CLOSE, TAB]
  }

  function HeaderBody(c: Codec, source: Bytes, body: Bytes): Bytes {
    c.encode(source) + [TAB] + (Digits(|body|) + [TAB] + c.digest(body))
  }

  function HeaderLine(c: Codec, id: Identity, source: Bytes, body: Bytes): Bytes {
    FramePrefix(id) + HeaderBody(c, source, body) + [NEWLINE]
  }

  function FrameBytes(c: Codec, id: Identity, source: Bytes, body: Bytes): Bytes {
    [NEWLINE] + HeaderLine(c, id, source, body) + body
  }

  // ---------------------------------------------------------------- writing

  datatype Event = Raw(data: Bytes) | Feed(source: Bytes, data: Bytes)

  /** The pieces of at most 64 KiB a feed is cut into; an empty feed is one empty piece. */
  function Chunks(data: Bytes): (chunks: seq<Bytes>)
    ensures |chunks| >= 1
    decreases |data|
  {
    if |data| <= CHUNK then [data] else [data[..CHUNK]] + Chunks(data[CHUNK..])
  }

  function Frames(c: Codec, id: Identity, source: Bytes, chunks: seq<Bytes>): Bytes {
    if chunks == [] then [] else FrameBytes(c, id, source, chunks[0]) + Frames(c, id, source, chunks[1..])
  }

  function EmitOne(c: Codec, id: Identity, e: Event): Bytes {
    match e
    case Raw(data) => data
    case Feed(source, data) => Frames(c, id, source, Chunks(data))
  }

  function Emit(c: Codec, id: Identity, events: seq<Event>): Bytes {
    if events == [] then [] else EmitOne(c, id, events[0]) + Emit(c, id, events[1..])
  }

  // ---------------------------------------------------------------- reading

  datatype FrameError = ForeignOrMalformed | InvalidHeader | UnsafeSource | IncompleteBody | ChecksumMismatch

  datatype Record = Record(source: Bytes, offset: nat, length: nat, sha: Bytes)

  type Parsed = Result<seq<Record>, FrameError>

  /** A source under the runtime directory is renamed to the task's logical prefix. */
  function Rename(id: Identity, source: Bytes): Bytes {
    if id.runtimeRoot + [SLASH] <= source then id.logical + source[|id.runtimeRoot|..] else source
  }

  predicate SafeSource(id: Identity, source: Bytes) {
    && id.logical + [SLASH] <= source
    && [46, 46] !in Split(source, SLASH)
    && TAB !in source && CARRIAGE_RETURN !in source && NEWLINE !in source && BACKSLASH !in source
  }

  /** Length of what `readline(limit)` returns from non-empty text. */
  function LineLength(text: Bytes): (k: nat)
    requires text != []
    ensures 1 <= k <= |text| && k <= LINE_LIMIT
  {
    Min(LINE_LIMIT, Min(IndexOf(text, NEWLINE) + 1, |text|))
  }

  /** The three header fields, checked and decoded: source and body length and digest. */
  function ParseHeader(c: Codec, id: Identity, line: Bytes): (r: Result<(Bytes, nat, Bytes), FrameError>)
  {
    var prefix := FramePrefix(id);
    if !(prefix <= line) || line[|line| - 1] != NEWLINE then Err(ForeignOrMalformed) else
      var fields := Split(line[|prefix|..|line| - 1], TAB);
      if |fields| != 3 || fields[1] == [] || !AllDigits(fields[1]) || !IsHex64(fields[2]) then Err(InvalidHeader) else
        match c.decode(fields[0])
        case None => Err(InvalidHeader)
        case Some(raw) =>
          if SafeSource(id, Rename(id, raw)) then Ok((Rename(id, raw), Value(fields[1]), fields[2]))
          else Err(UnsafeSource)
  }

  function Cons(first: Record, rest: Parsed): Parsed {
    if rest.Ok? then Ok([first] + rest.value) else rest
  }

  function After(front: seq<Record>, rest: Parsed): Parsed {
    if rest.Ok? then Ok(front + rest.value) else rest
  }

  lemma AfterCons(front: seq<Record>, rec: Record, rest: Parsed)
    ensures After(front, Cons(rec, rest)) == After(front + [rec], rest)
  {
    if rest.Ok? {
      assert front + ([rec] + rest.value) == front + [rec] + rest.value;
    }
  }

  /** `log_frames` from stream position `pos`. */
  function Parse(c: Codec, id: Identity, archive: Bytes, pos: nat, end: nat, atLineStart: bool): Parsed
    requires pos <= end <= |archive|
    decreases end - pos
  {
    if pos == end then Ok([]) else
      var n := LineLength(archive[pos..end]);
      var line := archive[pos..pos + n];
      if atLineStart && GENERIC <= line then
        match ParseHeader(c, id, line)
        case Err(e) => Err(e)
        case Ok(h) =>
          var offset := pos + n;
          if offset + h.1 > end then Err(IncompleteBody)
          else if c.digest(archive[offset..offset + h.1]) != h.2 then Err(ChecksumMismatch)
          else Cons(Record(h.0, offset, h.1, h.2), Parse(c, id, archive, offset + h.1, end, h.1 == 0))
      else Parse(c, id, archive, pos + n, end, line[n - 1] == NEWLINE)
  }

  // ---------------------------------------------------------------- the stream as gaps and frames

  /** A frame and the raw bytes that follow it up to the next frame. */
  datatype Item = Item(source: Bytes, body: Bytes, gap: Bytes)

  function ItemBytes(c: Codec, id: Identity, items: seq<Item>): Bytes {
    if items == [] then [] else
      FrameBytes(c, id, items[0].source, items[0].body) + (items[0].gap + ItemBytes(c, id, items[1..]))
  }

  function ItemsOf(source: Bytes, chunks: seq<Bytes>, gap: Bytes): (items: seq<Item>)
    requires chunks != []
    ensures |items| == |chunks|
    decreases |chunks|
  {
    if |chunks| == 1 then [Item(source, chunks[0], gap)]
    else [Item(source, chunks[0], [])] + ItemsOf(source, chunks[1..], gap)
  }

  /** Neighbouring raw writes merge into one gap. */
  function Normal(events: seq<Event>): (Bytes, seq<Item>) {
    if events == [] then ([], []) else
      var rest := Normal(events[1..]);
      match events[0]
      case Raw(data) => (data + rest.0, rest.1)
      case Feed(source, data) => ([], ItemsOf(source, Chunks(data), rest.0) + rest.1)
  }

  predicate MarkerAt(s: Bytes, p: nat) {
    p <= |s| && GENERIC <= s[p..]
  }

  /** No line of `gap` that the reader looks at starts like a frame header. */
  ghost predicate NoMarkerLine(gap: Bytes, atLineStart: bool) {
    forall p :: 0 <= p < |gap| && (if p == 0 then atLineStart else gap[p - 1] == NEWLINE) ==> !MarkerAt(gap, p)
  }

  ghost predicate GoodItem(c: Codec, id: Identity, item: Item) {
    && |HeaderLine(c, id, item.source, item.body)| <= LINE_LIMIT
    && SafeSource(id, Rename(id, item.source))
    && NoMarkerLine(item.gap, item.body == [])
  }

  /**
    What the channel asks of its writers: recognisable headers, sources of this task, no raw line that looks
    like a frame.
   */
  ghost predicate Recognisable(c: Codec, id: Identity, events: seq<Event>) {
    && NoMarkerLine(Normal(events).0, true)
    && forall item :: item in Normal(events).1 ==> GoodItem(c, id, item)
  }

  /** The records a reader should find when the first frame of `items` starts at `pos`. */
  function Expected(c: Codec, id: Identity, pos: nat, items: seq<Item>): (recs: seq<Record>)
    ensures |recs| == |items|
    ensures items != [] ==> recs[0].offset == pos + 1 + |HeaderLine(c, id, items[0].source, items[0].body)|
    decreases |items|
  {
    if items == [] then [] else
      var it := items[0];
      var offset := pos + 1 + |HeaderLine(c, id, it.source, it.body)|;
      [Record(Rename(id, it.source), offset, |it.body|, c.digest(it.body))]
      + Expected(c, id, offset + |it.body| + |it.gap|, items[1..])
  }

  function ExpectedRecords(c: Codec, id: Identity, start: nat, events: seq<Event>): seq<Record> {
    var n := Normal(events);
    Expected(c, id, start + |n.0|, n.1)
  }

  // ---------------------------------------------------------------- emission is the normal form

  lemma {:induction false} ItemsOfBytes(c: Codec, id: Identity, source: Bytes, chunks: seq<Bytes>, gap: Bytes,
      rest: seq<Item>)
    requires chunks != []
    ensures ItemBytes(c, id, ItemsOf(source, chunks, gap) + rest)
         == Frames(c, id, source, chunks) + (gap + ItemBytes(c, id, rest))
  {
    hide FrameBytes;
    var items := ItemsOf(source, chunks, gap);
    TailOfAppend(items, rest);
    var first := FrameBytes(c, id, source, chunks[0]);
    if |chunks| == 1 {
      assert items[1..] + rest == rest;
      assert Frames(c, id, source, chunks) == first + Frames(c, id, source, chunks[1..]);
      assert chunks[1..] == [] && first + [] == first;
    } else {
      var tail := ItemsOf(source, chunks[1..], gap);
      assert items[1..] == tail;
      ItemsOfBytes(c, id, source, chunks[1..], gap, rest);
      assert [] + ItemBytes(c, id, tail + rest) == ItemBytes(c, id, tail + rest);
      Regroup(first, Frames(c, id, source, chunks[1..]), gap + ItemBytes(c, id, rest));
    }
  }

  lemma {:induction false} EmitNormal(c: Codec, id: Identity, events: seq<Event>)
    ensures Emit(c, id, events) == Normal(events).0 + ItemBytes(c, id, Normal(events).1)
  {
    hide Chunks, FrameBytes, ItemsOf;
    if events != [] {
      EmitNormal(c, id, events[1..]);
      var rest := Normal(events[1..]);
      match events[0]
      case Raw(data) =>
        Regroup(data, rest.0, ItemBytes(c, id, rest.1));
      case Feed(source, data) =>
        ItemsOfBytes(c, id, source, Chunks(data), rest.0, rest.1);
        var items := ItemBytes(c, id, ItemsOf(source, Chunks(data), rest.0) + rest.1);
        assert [] + items == items;
    }
  }

  // ---------------------------------------------------------------- reading a gap

  ghost predicate EndsLine(g: Bytes) {
    g != [] && g[|g| - 1] == NEWLINE
  }

  /** Position of the next line start the reader sees after the first piece of `g`. */
  lemma FirstPiece(g: Bytes, tail: Bytes)
    requires g != [] && (EndsLine(g) || tail == [])
    ensures LineLength(g + tail) == LineLength(g)
  {
    var s := g + tail;
    var i := IndexOf(g, NEWLINE);
    if i < |g| {
      assert s[i] == NEWLINE;
      assert forall k :: 0 <= k < i ==> s[k] != NEWLINE;
      assert IndexOf(s, NEWLINE) == i;
    } else {
      assert tail == [];
      assert s == g;
    }
  }

  /** One line that is not a frame header. */
  lemma ReadPlainLine(c: Codec, id: Identity, archive: Bytes, pos: nat, g: Bytes, end: nat, atLineStart: bool)
    requires pos + |g| <= end <= |archive| && archive[pos..pos + |g|] == g
    requires g != [] && (EndsLine(g) || pos + |g| == end)
    requires !(atLineStart && GENERIC <= g[..LineLength(g)])
    ensures var n := LineLength(g);
            Parse(c, id, archive, pos, end, atLineStart) == Parse(c, id, archive, pos + n, end, g[n - 1] == NEWLINE)
  {
    hide ParseHeader, LineLength, GENERIC;
    var tail := archive[pos + |g|..end];
    assert archive[pos..end] == g + tail;
    FirstPiece(g, tail);
    var n := LineLength(g);
    assert archive[pos..pos + n] == g[..n];
  }

  lemma RestOfGap(archive: Bytes, pos: nat, g: Bytes, end: nat)
    requires pos + |g| <= end <= |archive| && archive[pos..pos + |g|] == g
    requires g != [] && (EndsLine(g) || pos + |g| == end)
    ensures var n := LineLength(g);
            && archive[pos + n..pos + |g|] == g[n..]
            && (g[n..] != [] ==> EndsLine(g[n..]) == EndsLine(g))
  {
    hide LineLength;
  }

  /** The reader walks through raw bytes without finding a frame. */
  lemma {:induction false} ReadGap(c: Codec, id: Identity, archive: Bytes, pos: nat, g: Bytes, end: nat,
      atLineStart: bool)
    requires pos + |g| <= end <= |archive| && archive[pos..pos + |g|] == g
    requires g != [] && (EndsLine(g) || pos + |g| == end)
    requires NoMarkerLine(g, atLineStart)
    ensures Parse(c, id, archive, pos, end, atLineStart) == Parse(c, id, archive, pos + |g|, end, EndsLine(g))
    decreases |g|
  {
    hide Parse, LineLength, GENERIC, NoMarkerLine;
    var n := LineLength(g);
    PieceClean(g, n, atLineStart);
    ReadPlainLine(c, id, archive, pos, g, end, atLineStart);
    RestOfGap(archive, pos, g, end);
    if g[n..] != [] {
      ReadGap(c, id, archive, pos + n, g[n..], end, g[n - 1] == NEWLINE);
    }
  }

  lemma PieceMarker(g: Bytes, atLineStart: bool)
    requires g != [] && !NoMarkerLine(g, atLineStart)
    requires !(atLineStart && GENERIC <= g[..LineLength(g)])
    ensures var n := LineLength(g); n < |g| && !NoMarkerLine(g[n..], g[n - 1] == NEWLINE)
  {
    hide GENERIC;
    var n := LineLength(g);
    var p :| 0 <= p < |g| && (if p == 0 then atLineStart else g[p - 1] == NEWLINE) && MarkerAt(g, p);
    if p == 0 {
      assert g[0..] == g;
      MarkerInPiece(g);
      assert false;
    }
    assert p >= n;
    assert MarkerAt(g[n..], p - n) by { assert g[n..][p - n..] == g[p..]; }
    assert p > n ==> g[n..][p - n - 1] == g[p - 1];
  }

  /** A line that starts with the marker is read far enough to show it. */
  lemma MarkerInPiece(g: Bytes)
    requires g != [] && GENERIC <= g
    ensures GENERIC <= g[..LineLength(g)]
  {
    assert g[..15] == GENERIC;
    forall k | 0 <= k < 15 ensures g[k] != NEWLINE { assert g[k] == GENERIC[k]; }
    assert LineLength(g) >= 15;
  }

  /** A raw line that looks like a frame is never read over: the reader fails or reports a record inside the gap. */
  lemma {:induction false} ReadMarker(c: Codec, id: Identity, archive: Bytes, pos: nat, g: Bytes, end: nat,
      atLineStart: bool)
    requires pos + |g| <= end <= |archive| && archive[pos..pos + |g|] == g
    requires g != [] && (EndsLine(g) || pos + |g| == end)
    requires !NoMarkerLine(g, atLineStart)
    ensures var r := Parse(c, id, archive, pos, end, atLineStart);
            r.Ok? ==> r.value != [] && r.value[0].offset <= pos + |g|
    decreases |g|
  {
    hide LineLength, GENERIC, NoMarkerLine, ParseHeader;
    var n := LineLength(g);
    if atLineStart && GENERIC <= g[..n] {
      var tail := archive[pos + |g|..end];
      assert archive[pos..end] == g + tail;
      FirstPiece(g, tail);
      assert archive[pos..pos + n] == g[..n];
    } else {
      PieceMarker(g, atLineStart);
      ReadPlainLine(c, id, archive, pos, g, end, atLineStart);
      RestOfGap(archive, pos, g, end);
      hide Parse;
      ReadMarker(c, id, archive, pos + n, g[n..], end, g[n - 1] == NEWLINE);
    }
  }

  lemma MarkerFromPiece(g: Bytes, n: nat)
    requires n <= |g|
    ensures GENERIC <= g[..n] ==> MarkerAt(g, 0)
  {
    hide GENERIC;
    assert g[0..] == g;
    if GENERIC <= g[..n] { assert g[..n][..|GENERIC|] == g[..|GENERIC|]; }
  }

  lemma PieceClean(g: Bytes, n: nat, atLineStart: bool)
    requires 1 <= n <= |g| && NoMarkerLine(g, atLineStart)
    ensures atLineStart ==> !(GENERIC <= g[..n])
    ensures NoMarkerLine(g[n..], g[n - 1] == NEWLINE)
  {
    hide GENERIC;
    MarkerFromPiece(g, n);
    forall p | 0 <= p < |g[n..]| && (if p == 0 then g[n - 1] == NEWLINE else g[n..][p - 1] == NEWLINE)
      ensures !MarkerAt(g[n..], p)
    {
      assert !MarkerAt(g, n + p);
      assert g[n..][p..] == g[n + p..];
      assert p > 0 ==> g[n..][p - 1] == g[n + p - 1];
    }
  }

  lemma MarkerBeforeNewline(rest: Bytes)
    ensures GENERIC <= rest + [NEWLINE] <==> GENERIC <= rest
  {
    if |rest| == 14 {
      assert (rest + [NEWLINE])[14] == NEWLINE && GENERIC[14] == 32;
    } else if |rest| >= 15 {
      assert (rest + [NEWLINE])[..15] == rest[..15];
    }
  }

  /** The newline that opens the next frame ends the gap's last line and adds no marker. */
  lemma GapNewline(gap: Bytes, atLineStart: bool)
    ensures NoMarkerLine(gap + [NEWLINE], atLineStart) <==> NoMarkerLine(gap, atLineStart)
  {
    hide GENERIC;
    var g := gap + [NEWLINE];
    forall p: nat | p < |g| ensures MarkerAt(g, p) <==> MarkerAt(gap, p) {
      assert g[p..] == gap[p..] + [NEWLINE];
      MarkerBeforeNewline(gap[p..]);
    }
    assert !MarkerAt(gap, |gap|) by { assert gap[|gap|..] == []; MarkerNotEmpty(); }
    assert forall k :: 0 <= k < |gap| ==> g[k] == gap[k];
  }

  lemma MarkerNotEmpty()
    ensures !(GENERIC <= [])
  {
  }

  // ---------------------------------------------------------------- reading a frame

  lemma HeaderFields(c: Codec, source: Bytes, body: Bytes)
    requires Lawful(c)
    ensures Split(HeaderBody(c, source, body), TAB) == [c.encode(source), Digits(|body|), c.digest(body)]
    ensures NEWLINE !in HeaderBody(c, source, body)
  {
    hide Digits, Value, Split;
    var e, d, h := c.encode(source), Digits(|body|), c.digest(body);
    assert IsHex64(h);
    assert TAB !in d && NEWLINE !in d && TAB !in h && NEWLINE !in h;
    SplitStep(e, TAB, d + [TAB] + h);
    SplitStep(d, TAB, h);
    SplitStep(h, TAB, []);
    assert [e] + ([d] + [h]) == [e, d, h];
  }

  lemma ParsesItsHeader(c: Codec, id: Identity, source: Bytes, body: Bytes)
    requires Lawful(c)
    ensures ParseHeader(c, id, HeaderLine(c, id, source, body)) ==
            if SafeSource(id, Rename(id, source)) then Ok((Rename(id, source), |body|, c.digest(body)))
                else Err(UnsafeSource)
  {
    hide Digits, Value, Split, HeaderBody, SafeSource, Rename, FramePrefix, IsHex64;
    HeaderFields(c, source, body);
    var line := HeaderLine(c, id, source, body);
    assert line[|FramePrefix(id)|..|line| - 1] == HeaderBody(c, source, body);
    assert IsHex64(c.digest(body));
    assert c.decode(c.encode(source)) == Some(source);
  }

  lemma HeaderShape(c: Codec, id: Identity, source: Bytes, body: Bytes)
    requires Lawful(c) && ValidIdentity(id)
    ensures var line := HeaderLine(c, id, source, body);
            GENERIC <= line && |line| > |GENERIC| && IndexOf(line, NEWLINE) == |line| - 1
  {
    hide Digits, HeaderBody;
    HeaderFields(c, source, body);
    var line := HeaderLine(c, id, source, body);
    MarkerHasNoNewline();
    var front := FramePrefix(id) + HeaderBody(c, source, body);
    assert NEWLINE !in front;
    IndexOfAt(front, NEWLINE, []);
    assert front + [NEWLINE] + [] == line;
    assert line[..|GENERIC|] == GENERIC;
  }

  lemma MarkerHasNoNewline()
    ensures NEWLINE !in GENERIC
  {
  }

  lemma ReadMarkedLine(c: Codec, id: Identity, archive: Bytes, pos: nat, end: nat, line: Bytes)
    requires pos < end <= |archive| && LineLength(archive[pos..end]) == |line|
    requires archive[pos..pos + |line|] == line && GENERIC <= line
    ensures Parse(c, id, archive, pos, end, true) ==
            var h := ParseHeader(c, id, line);
            if h.Err? then Err(h.error) else
              var offset := pos + |line|;
              if offset + h.value.1 > end then Err(IncompleteBody)
              else if c.digest(archive[offset..offset + h.value.1]) != h.value.2 then Err(ChecksumMismatch)
              else Cons(Record(h.value.0, offset, h.value.1, h.value.2),
                        Parse(c, id, archive, offset + h.value.1, end, h.value.1 == 0))
  {
    hide ParseHeader, GENERIC, Cons, LineLength;
  }

  lemma LongHeader(c: Codec, id: Identity, h: Bytes)
    requires IndexOf(h, NEWLINE) == |h| - 1 && |h| > LINE_LIMIT && GENERIC <= h
    ensures LineLength(h) == LINE_LIMIT && GENERIC <= h[..LINE_LIMIT]
    ensures ParseHeader(c, id, h[..LINE_LIMIT]) == Err(ForeignOrMalformed)
  {
    hide FramePrefix, GENERIC;
    MarkerInPiece(h);
    assert h[..LINE_LIMIT][LINE_LIMIT - 1] != NEWLINE;
  }

  /** A header the reader can hold is read back as its frame; a longer one, or a foreign source, is an error. */
  lemma ReadFrame(c: Codec, id: Identity, archive: Bytes, pos: nat, end: nat, source: Bytes, body: Bytes)
    requires Lawful(c) && ValidIdentity(id)
    requires var h := HeaderLine(c, id, source, body);
             pos + |h| + |body| <= end <= |archive|
             && archive[pos..pos + |h|] == h && archive[pos + |h|..pos + |h| + |body|] == body
    ensures var h := HeaderLine(c, id, source, body);
            var next := pos + |h| + |body|;
            Parse(c, id, archive, pos, end, true) ==
            if |h| > LINE_LIMIT then Err(ForeignOrMalformed)
            else if !SafeSource(id, Rename(id, source)) then Err(UnsafeSource)
            else Cons(Record(Rename(id, source), pos + |h|, |body|, c.digest(body)),
                Parse(c, id, archive, next, end, body == []))
  {
    hide HeaderLine, SafeSource, Rename, GENERIC, Cons, Parse, ParseHeader, LineLength;
    var h := HeaderLine(c, id, source, body);
    HeaderShape(c, id, source, body);
    assert archive[pos..end] == h + archive[pos + |h|..end];
    FirstPiece(h, archive[pos + |h|..end]);
    if |h| > LINE_LIMIT {
      LongHeader(c, id, h);
      assert archive[pos..pos + LINE_LIMIT] == h[..LINE_LIMIT];
      ReadMarkedLine(c, id, archive, pos, end, h[..LINE_LIMIT]);
    } else {
      ParsesItsHeader(c, id, source, body);
      WholeLine(h);
      ReadMarkedLine(c, id, archive, pos, end, h);
    }
  }

  lemma WholeLine(h: Bytes)
    requires h != [] && |h| <= LINE_LIMIT && IndexOf(h, NEWLINE) == |h| - 1
    ensures LineLength(h) == |h|
  {
  }

  /** From any gap on, the reader finds exactly the expected records iff the rest of the stream is recognisable. */
  lemma {:induction false} ReadItems(c: Codec, id: Identity, archive: Bytes, pos: nat, end: nat, atLineStart: bool,
                                     gap: Bytes, items: seq<Item>)
    requires Lawful(c) && ValidIdentity(id)
    requires pos <= end <= |archive| && archive[pos..end] == gap + ItemBytes(c, id, items)
    ensures (NoMarkerLine(gap, atLineStart) && forall item :: item in items ==> GoodItem(c, id, item))
       <==> Parse(c, id, archive, pos, end, atLineStart) == Ok(Expected(c, id, pos + |gap|, items))
    decreases |items|, 1
  {
    hide Parse, NoMarkerLine, HeaderLine, GoodItem, GENERIC, ItemBytes;
    if items == [] {
      NoItems(c, id, gap);
      ReadLastGap(c, id, archive, pos, end, atLineStart, gap);
    } else {
      var g := gap + [NEWLINE];
      HeaderShape(c, id, items[0].source, items[0].body);
      LocateItem(c, id, archive, pos, end, gap, items);
      GapNewline(gap, atLineStart);
      if NoMarkerLine(gap, atLineStart) {
        ReadGap(c, id, archive, pos, g, end, atLineStart);
        ReadFromFrame(c, id, archive, pos + |g|, end, items);
      } else {
        ReadMarker(c, id, archive, pos, g, end, atLineStart);
      }
    }
  }

  lemma {:induction false} ReadFromFrame(c: Codec, id: Identity, archive: Bytes, at: nat, end: nat, items: seq<Item>)
    requires Lawful(c) && ValidIdentity(id) && items != [] && at > 0
    requires var h := HeaderLine(c, id, items[0].source, items[0].body);
             var next := at + |h| + |items[0].body|;
             next <= end <= |archive|
             && archive[at..at + |h|] == h && archive[at + |h|..next] == items[0].body
             && archive[next..end] == items[0].gap + ItemBytes(c, id, items[1..])
    ensures (forall item :: item in items ==> GoodItem(c, id, item))
       <==> Parse(c, id, archive, at, end, true) == Ok(Expected(c, id, at - 1, items))
    decreases |items|, 0
  {
    hide Parse, NoMarkerLine, HeaderLine, SafeSource, Expected, Cons;
    var it, h := items[0], HeaderLine(c, id, items[0].source, items[0].body);
    var next := at + |h| + |it.body|;
    ReadFrame(c, id, archive, at, end, it.source, it.body);
    GoodSplit(c, id, items);
    if |h| <= LINE_LIMIT && SafeSource(id, Rename(id, it.source)) {
      ReadItems(c, id, archive, next, end, it.body == [], it.gap, items[1..]);
      ConsExpected(c, id, at - 1, items, Parse(c, id, archive, next, end, it.body == []));
    }
  }

  lemma NoItems(c: Codec, id: Identity, gap: Bytes)
    ensures gap + ItemBytes(c, id, []) == gap
  {
  }

  /** Where the first frame of `items` lies after `gap`. */
  lemma LocateItem(c: Codec, id: Identity, archive: Bytes, pos: nat, end: nat, gap: Bytes, items: seq<Item>)
    requires items != []
    requires pos <= end <= |archive| && archive[pos..end] == gap + ItemBytes(c, id, items)
    ensures var h := HeaderLine(c, id, items[0].source, items[0].body);
            var at := pos + |gap| + 1;
            var next := at + |h| + |items[0].body|;
            && next <= end
            && archive[pos..at] == gap + [NEWLINE]
            && archive[at..at + |h|] == h && archive[at + |h|..next] == items[0].body
            && archive[next..end] == items[0].gap + ItemBytes(c, id, items[1..])
  {
    hide HeaderLine;
    var it, h := items[0], HeaderLine(c, id, items[0].source, items[0].body);
    var rest := it.gap + ItemBytes(c, id, items[1..]);
    assert FrameBytes(c, id, it.source, it.body) == [NEWLINE] + h + it.body;
    Rejoin(gap, h, it.body, rest);
    Locate(archive, pos, end, gap + [NEWLINE], h, it.body, rest);
  }

  lemma Rejoin(gap: Bytes, h: Bytes, body: Bytes, rest: Bytes)
    ensures gap + (([NEWLINE] + h + body) + rest) == (gap + [NEWLINE]) + (h + (body + rest))
  {
  }

  lemma GoodSplit(c: Codec, id: Identity, items: seq<Item>)
    requires items != []
    ensures (forall item :: item in items ==> GoodItem(c, id, item))
       <==> GoodItem(c, id, items[0]) && forall item :: item in items[1..] ==> GoodItem(c, id, item)
  {
    hide GoodItem;
    assert forall item :: item in items <==> item == items[0] || item in items[1..];
  }

  lemma ConsExpected(c: Codec, id: Identity, pos: nat, items: seq<Item>, rest: Parsed)
    requires items != []
    ensures var it := items[0];
            var offset := pos + 1 + |HeaderLine(c, id, it.source, it.body)|;
            Cons(Record(Rename(id, it.source), offset, |it.body|, c.digest(it.body)), rest)
                == Ok(Expected(c, id, pos, items))
            <==> rest == Ok(Expected(c, id, offset + |it.body| + |it.gap|, items[1..]))
  {
    hide HeaderLine, Rename;
    var it := items[0];
    var offset := pos + 1 + |HeaderLine(c, id, it.source, it.body)|;
    var first := Record(Rename(id, it.source), offset, |it.body|, c.digest(it.body));
    var tail := Expected(c, id, offset + |it.body| + |it.gap|, items[1..]);
    assert Expected(c, id, pos, items) == [first] + tail;
    assert ([first] + tail)[1..] == tail;
    if rest.Ok? { assert ([first] + rest.value)[1..] == rest.value; }
  }

  lemma Locate(archive: Bytes, pos: nat, end: nat, g: Bytes, h: Bytes, body: Bytes, rest: Bytes)
    requires pos <= end <= |archive| && archive[pos..end] == g + (h + (body + rest))
    ensures archive[pos..pos + |g|] == g
    ensures var at := pos + |g|;
            && archive[at..at + |h|] == h
            && archive[at + |h|..at + |h| + |body|] == body
            && archive[at + |h| + |body|..end] == rest
            && at + |h| + |body| <= end
  {
    Piece(archive, pos, end, g, h + (body + rest));
    Piece(archive, pos + |g|, end, h, body + rest);
    Piece(archive, pos + |g| + |h|, end, body, rest);
  }

  lemma Piece(archive: Bytes, pos: nat, end: nat, a: Bytes, b: Bytes)
    requires pos <= end <= |archive| && archive[pos..end] == a + b
    ensures pos + |a| <= end && archive[pos..pos + |a|] == a && archive[pos + |a|..end] == b
  {
    assert |archive[pos..end]| == |a| + |b|;
    assert archive[pos..pos + |a|] == archive[pos..end][..|a|];
    assert archive[pos + |a|..end] == archive[pos..end][|a|..];
  }

  lemma ReadLastGap(c: Codec, id: Identity, archive: Bytes, pos: nat, end: nat, atLineStart: bool, gap: Bytes)
    requires pos <= end <= |archive| && archive[pos..end] == gap
    ensures NoMarkerLine(gap, atLineStart) <==> Parse(c, id, archive, pos, end, atLineStart) == Ok([])
  {
    hide GENERIC, ParseHeader;
    assert pos + |gap| == end;
    if gap != [] {
      if NoMarkerLine(gap, atLineStart) {
        ReadGap(c, id, archive, pos, gap, end, atLineStart);
      } else {
        ReadMarker(c, id, archive, pos, gap, end, atLineStart);
      }
    }
  }

  /**
    Main result. For every interleaving of raw writes and feeds, the reader returns exactly the
    frames in order, with their offsets and lengths, if and only if the stream is recognisable.
   */
  lemma ChannelRoundTrip(c: Codec, id: Identity, events: seq<Event>, archive: Bytes, start: nat, end: nat)
    requires Lawful(c) && ValidIdentity(id)
    requires start <= end <= |archive| && archive[start..end] == Emit(c, id, events)
    ensures Recognisable(c, id, events)
       <==> Parse(c, id, archive, start, end, true) == Ok(ExpectedRecords(c, id, start, events))
  {
    hide Parse, Emit, Normal, NoMarkerLine, GoodItem, Expected;
    EmitNormal(c, id, events);
    ReadItems(c, id, archive, start, end, true, Normal(events).0, Normal(events).1);
  }

  /** A raw line that starts with the frame marker stops the scan, and so hides the frame that was fed after it. */
  lemma MarkerLineBreaks(c: Codec, id: Identity, source: Bytes, data: Bytes)
    requires Lawful(c) && ValidIdentity(id)
    ensures var events := [Raw(GENERIC + [NEWLINE]), Feed(source, data)];
            var archive := Emit(c, id, events);
            && !Recognisable(c, id, events)
            && Parse(c, id, archive, 0, |archive|, true) == Err(ForeignOrMalformed)
  {
    hide EmitOne, Chunks, Frames, ItemsOf, Normal, Emit;
    var raw, line := Raw(GENERIC + [NEWLINE]), GENERIC + [NEWLINE];
    var events := [raw, Feed(source, data)];
    var archive := Emit(c, id, events);
    var rest := Emit(c, id, events[1..]);
    assert archive == line + rest by { EmitFirst(c, id, events); }
    assert archive[0..|archive|] == archive && archive[0..|line|] == line;
    MarkerHasNoNewline();
    assert line[|GENERIC|] == NEWLINE && forall k :: 0 <= k < |GENERIC| ==> line[k] == GENERIC[k];
    assert IndexOf(line, NEWLINE) == |GENERIC|;
    FirstPiece(line, rest);
    assert GENERIC <= line;
    assert ParseHeader(c, id, line) == Err(ForeignOrMalformed) by { ShortLine(c, id, line); }
    ReadMarkedLine(c, id, archive, 0, |archive|, line);
    if Recognisable(c, id, events) {
      ChannelRoundTrip(c, id, events, archive, 0, |archive|);
    }
  }

  lemma EmitFirst(c: Codec, id: Identity, events: seq<Event>)
    requires events != []
    ensures Emit(c, id, events) == EmitOne(c, id, events[0]) + Emit(c, id, events[1..])
    ensures events[0].Raw? ==> EmitOne(c, id, events[0]) == events[0].data
  {
    hide Frames;
  }

  lemma ShortLine(c: Codec, id: Identity, line: Bytes)
    requires |line| < |FramePrefix(id)|
    ensures ParseHeader(c, id, line) == Err(ForeignOrMalformed)
  {
  }

  /** The bytes of an ASCII text. */
  function Ascii(text: string): (s: Bytes)
    ensures |s| == |text|
    ensures forall i :: 0 <= i < |s| && text[i] < 128 as char ==> s[i] == text[i] as int
  {
    seq(|text|, i requires 0 <= i < |text| => if text[i] < 128 as char then text[i] as int else 63)
  }

  /** A frame for a source outside the task is refused. */
  lemma ForeignSourceBreaks(c: Codec, id: Identity, source: Bytes, data: Bytes)
    requires Lawful(c) && ValidIdentity(id)
    requires !(id.runtimeRoot + [SLASH] <= source) && !(id.logical + [SLASH] <= source)
    ensures !Recognisable(c, id, [Feed(source, data)])
  {
    hide HeaderLine;
    var item := OnlyFeed(source, data);
    assert !SafeSource(id, Rename(id, source));
    assert !GoodItem(c, id, item);
  }

  lemma OnlyFeed(source: Bytes, data: Bytes) returns (item: Item)
    ensures item in Normal([Feed(source, data)]).1 && item.source == source && item.body == Chunks(data)[0]
  {
    hide Chunks;
    var events := [Feed(source, data)];
    assert Normal(events[1..]) == ([], []);
    var items := Normal(events).1;
    assert items == ItemsOf(source, Chunks(data), []);
    item := items[0];
  }

  /** The file of another group's runtime directory is such a source. */
  lemma OtherGroupBreaks(c: Codec, data: Bytes)
    requires Lawful(c)
    ensures var id := Identity(Ascii("token"), Ascii("runtime/group-1"), Ascii("prepared/group-1"));
            && ValidIdentity(id)
            && !Recognisable(c, id, [Feed(Ascii("runtime/group-2/stdout.txt"), data)])
  {
    var id := Identity(Ascii("token"), Ascii("runtime/group-1"), Ascii("prepared/group-1"));
    var source := Ascii("runtime/group-2/stdout.txt");
    assert id.runtimeRoot[14] == 49 && source[14] == 50;
    assert id.logical[0] == 112 && source[0] == 114;
    assert (id.runtimeRoot + [SLASH])[14] != source[14] && (id.logical + [SLASH])[0] != source[0];
    assert forall i :: 0 <= i < |id.token| ==> id.token[i] > 32;
    ForeignSourceBreaks(c, id, source, data);
  }

  /** A source whose encoding fills the line limit makes a header that the scan refuses, whatever else is written. */
  lemma LongHeaderBreaks(c: Codec, id: Identity, source: Bytes, data: Bytes)
    requires Lawful(c) && ValidIdentity(id) && |c.encode(source)| >= LINE_LIMIT
    ensures !Recognisable(c, id, [Feed(source, data)])
  {
    hide Digits;
    var item := OnlyFeed(source, data);
    assert |HeaderLine(c, id, source, item.body)| > LINE_LIMIT;
    assert !GoodItem(c, id, item);
  }

  // ---------------------------------------------------------------- contents per source

  /** Everything fed under one of the given sources. */
  function FedAs(events: seq<Event>, sources: set<Bytes>): Bytes {
    if events == [] then [] else
      (if events[0].Feed? && events[0].source in sources then events[0].data else []) + FedAs(events[1..], sources)
  }

  /** The two ways in which the writers of a task name one file. */
  function Spellings(id: Identity, file: Bytes): set<Bytes> {
    {id.runtimeRoot + [SLASH] + file, id.logical + [SLASH] + file}
  }

  lemma NotUnderBoth(a: Bytes, b: Bytes, source: Bytes)
    requires a <= source && b <= source
    ensures a <= b || b <= a
  {
    if |a| <= |b| { assert a == b[..|a|]; } else { assert b == a[..|b|]; }
  }

  lemma FiledUnder(id: Identity, written: Bytes, file: Bytes)
    requires Separate(id)
    ensures Rename(id, written) == id.logical + [SLASH] + file <==> written in Spellings(id, file)
  {
    var from, to := id.runtimeRoot + [SLASH], id.logical + [SLASH];
    if from <= written {
      var rest := written[|from|..];
      assert written == from + rest && written[|id.runtimeRoot|..] == [SLASH] + rest;
      assert Rename(id, written) == to + rest;
      if to + rest == to + file { assert (to + rest)[|to|..] == rest && (to + file)[|to|..] == file; }
      if written == from + file { assert (from + file)[|from|..] == file; }
      if to <= written { NotUnderBoth(from, to, written); }
      assert to <= to + file;
    } else {
      assert from <= from + file;
    }
  }

  function InItems(id: Identity, items: seq<Item>, source: Bytes): Bytes {
    if items == [] then [] else
      (if Rename(id, items[0].source) == source then items[0].body else []) + InItems(id, items[1..], source)
  }

  predicate InRange(archive: Bytes, recs: seq<Record>) {
    forall r :: r in recs ==> r.offset + r.length <= |archive|
  }

  /** What the archive holds for `source` according to the records. */
  function Held(archive: Bytes, recs: seq<Record>, source: Bytes): Bytes
    requires InRange(archive, recs)
  {
    if recs == [] then [] else
      (if recs[0].source == source then archive[recs[0].offset..recs[0].offset + recs[0].length] else [])
      + Held(archive, recs[1..], source)
  }

  /** The records are in bounds, their digests match, and `source` holds `content`. */
  ghost predicate Describes(c: Codec, archive: Bytes, recs: seq<Record>, source: Bytes, content: Bytes) {
    && InRange(archive, recs)
    && Held(archive, recs, source) == content
    && forall r :: r in recs ==> r.sha == c.digest(archive[r.offset..r.offset + r.length])
  }

  lemma ExpectedCons(c: Codec, id: Identity, pos: nat, items: seq<Item>)
    requires items != []
    ensures var it := items[0];
            var offset := pos + 1 + |HeaderLine(c, id, it.source, it.body)|;
            Expected(c, id, pos, items) == [Record(Rename(id, it.source), offset, |it.body|, c.digest(it.body))]
                                           + Expected(c, id, offset + |it.body| + |it.gap|, items[1..])
  {
    hide HeaderLine, Rename;
  }

  lemma DescribesCons(c: Codec, archive: Bytes, first: Record, tail: seq<Record>, source: Bytes, content: Bytes)
    requires first.offset + first.length <= |archive|
    requires first.sha == c.digest(archive[first.offset..first.offset + first.length])
    requires Describes(c, archive, tail, source, content)
    ensures Describes(c, archive, [first] + tail, source,
                      (if first.source == source then archive[first.offset..first.offset + first.length] else [])
                          + content)
  {
    var recs := [first] + tail;
    assert recs[1..] == tail;
    assert forall r :: r in recs ==> r == first || r in tail;
  }

  lemma DescribesNone(c: Codec, id: Identity, archive: Bytes, pos: nat, source: Bytes)
    ensures Describes(c, archive, Expected(c, id, pos, []), source, [])
  {
  }

  lemma {:induction false} HeldInItems(c: Codec, id: Identity, archive: Bytes, pos: nat, end: nat,
                                       gap: Bytes, items: seq<Item>, source: Bytes)
    requires pos <= end <= |archive| && archive[pos..end] == gap + ItemBytes(c, id, items)
    ensures Describes(c, archive, Expected(c, id, pos + |gap|, items), source, InItems(id, items, source))
    decreases |items|
  {
    hide HeaderLine, Rename, ItemBytes, Expected, Describes;
    if items == [] {
      DescribesNone(c, id, archive, pos + |gap|, source);
    } else {
      var it, h := items[0], HeaderLine(c, id, items[0].source, items[0].body);
      LocateItem(c, id, archive, pos, end, gap, items);
      var offset := pos + |gap| + 1 + |h|;
      HeldInItems(c, id, archive, offset + |it.body|, end, it.gap, items[1..], source);
      ExpectedCons(c, id, pos + |gap|, items);
      var first := Record(Rename(id, it.source), offset, |it.body|, c.digest(it.body));
      assert archive[first.offset..first.offset + first.length] == it.body;
      DescribesCons(c, archive, first, Expected(c, id, offset + |it.body| + |it.gap|, items[1..]), source,
                    InItems(id, items[1..], source));
      assert InItems(id, items, source)
          == (if first.source == source then it.body else []) + InItems(id, items[1..], source);
    }
  }

  lemma {:induction false} ChunksConcat(data: Bytes)
    ensures Concat(Chunks(data)) == data
    decreases |data|
  {
    if |data| <= CHUNK {
      assert Concat([data]) == data + Concat([]);
    } else {
      ChunksConcat(data[CHUNK..]);
      var tail := Chunks(data[CHUNK..]);
      assert ([data[..CHUNK]] + tail)[1..] == tail;
    }
  }

  lemma {:induction false} InItemsOf(id: Identity, source: Bytes, chunks: seq<Bytes>, gap: Bytes, rest: seq<Item>,
      target: Bytes)
    requires chunks != []
    ensures InItems(id, ItemsOf(source, chunks, gap) + rest, target)
         == (if Rename(id, source) == target then Concat(chunks) else []) + InItems(id, rest, target)
    decreases |chunks|
  {
    hide Rename;
    var items := ItemsOf(source, chunks, gap);
    TailOfAppend(items, rest);
    if |chunks| == 1 {
      assert items[1..] + rest == rest;
      assert Concat(chunks) == chunks[0] + Concat(chunks[1..]) && Concat(chunks[1..]) == [];
    } else {
      assert items[1..] == ItemsOf(source, chunks[1..], gap);
      InItemsOf(id, source, chunks[1..], gap, rest, target);
      Regroup(chunks[0], Concat(chunks[1..]), InItems(id, rest, target));
    }
  }

  lemma {:induction false} InNormal(id: Identity, events: seq<Event>, file: Bytes)
    requires Separate(id)
    ensures InItems(id, Normal(events).1, id.logical + [SLASH] + file) == FedAs(events, Spellings(id, file))
  {
    hide Chunks, ItemsOf, Rename, Separate, Spellings, InItems, FedAs;
    var name, spellings := id.logical + [SLASH] + file, Spellings(id, file);
    if events == [] {
      NothingFed(id, name, spellings);
    } else {
      InNormal(id, events[1..], file);
      FedStep(events, spellings);
      if events[0].Feed? {
        var rest := Normal(events[1..]);
        FiledUnder(id, events[0].source, file);
        InItemsOf(id, events[0].source, Chunks(events[0].data), rest.0, rest.1, name);
        ChunksConcat(events[0].data);
      }
    }
  }

  lemma NothingFed(id: Identity, name: Bytes, sources: set<Bytes>)
    ensures InItems(id, [], name) == FedAs([], sources) == []
  {
  }

  lemma FedStep(events: seq<Event>, sources: set<Bytes>)
    requires events != []
    ensures FedAs(events, sources)
         == if events[0].Feed? && events[0].source in sources then events[0].data + FedAs(events[1..], sources)
            else FedAs(events[1..], sources)
  {
  }

  /**
    Main result. In a recognisable stream the bodies recorded for a file of the task, in record order, are exactly
    the bytes that were fed to it under its runtime path or its logical path, whatever those bytes look like.
   */
  lemma ContentsSurvive(c: Codec, id: Identity, events: seq<Event>, archive: Bytes, start: nat, end: nat, file: Bytes)
    requires Lawful(c) && ValidIdentity(id) && Separate(id)
    requires start <= end <= |archive| && archive[start..end] == Emit(c, id, events)
    requires Recognisable(c, id, events)
    ensures var r := Parse(c, id, archive, start, end, true);
            r.Ok? && Describes(c, archive, r.value, id.logical + [SLASH] + file, FedAs(events, Spellings(id, file)))
  {
    hide Parse, Emit, Normal, NoMarkerLine, GoodItem, Expected, Describes, InItems, FedAs, Separate, Spellings;
    ChannelRoundTrip(c, id, events, archive, start, end);
    EmitNormal(c, id, events);
    HeldInItems(c, id, archive, start, end, Normal(events).0, Normal(events).1, id.logical + [SLASH] + file);
    InNormal(id, events, file);
  }

  ghost predicate IsFed(events: seq<Event>, source: Bytes) {
    exists e :: e in events && e.Feed? && e.source == source
  }

  ghost predicate HasItem(items: seq<Item>, source: Bytes) {
    exists item :: item in items && item.source == source
  }

  ghost predicate FeedsOf(events: seq<Event>, items: seq<Item>) {
    forall source :: HasItem(items, source) <==> IsFed(events, source)
  }

  lemma IsFedFirst(events: seq<Event>, source: Bytes)
    requires events != []
    ensures IsFed(events, source) <==>
              (events[0].Feed? && events[0].source == source) || IsFed(events[1..], source)
  {
    assert forall e :: e in events <==> e == events[0] || e in events[1..];
  }

  lemma HasItemAppend(a: seq<Item>, b: seq<Item>, source: Bytes)
    ensures HasItem(a + b, source) <==> HasItem(a, source) || HasItem(b, source)
  {
    assert forall item :: item in a + b <==> item in a || item in b;
  }

  /** The frames of a feed carry its source, and every feed has one. */
  lemma {:induction false} ItemsAreFed(events: seq<Event>)
    ensures FeedsOf(events, Normal(events).1)
  {
    hide Chunks, IsFed, HasItem;
    forall source ensures HasItem(Normal(events).1, source) <==> IsFed(events, source) {
      SourceIsFed(events, source);
    }
  }

  lemma {:induction false} SourceIsFed(events: seq<Event>, source: Bytes)
    ensures HasItem(Normal(events).1, source) <==> IsFed(events, source)
  {
    hide Chunks, ItemsOf;
    if events != [] {
      SourceIsFed(events[1..], source);
      hide IsFed, HasItem;
      IsFedFirst(events, source);
      if events[0].Feed? {
        var rest := Normal(events[1..]);
        HasItemAppend(ItemsOf(events[0].source, Chunks(events[0].data), rest.0), rest.1, source);
        ItemsOfSource(events[0].source, Chunks(events[0].data), rest.0, source);
      }
    }
  }

  lemma ItemsOfSource(written: Bytes, chunks: seq<Bytes>, gap: Bytes, source: Bytes)
    requires chunks != []
    ensures HasItem(ItemsOf(written, chunks, gap), source) <==> source == written
  {
    OneSource(written, chunks, gap);
    var items := ItemsOf(written, chunks, gap);
    hide ItemsOf;
    assert items[0] in items;
  }

  lemma {:induction false} OneSource(source: Bytes, chunks: seq<Bytes>, gap: Bytes)
    requires chunks != []
    ensures forall item :: item in ItemsOf(source, chunks, gap) ==> item.source == source
    decreases |chunks|
  {
    if |chunks| > 1 { OneSource(source, chunks[1..], gap); }
  }

  lemma {:induction false} RecordsOfItems(c: Codec, id: Identity, pos: nat, items: seq<Item>)
    ensures forall k :: 0 <= k < |items| ==> Expected(c, id, pos, items)[k].source == Rename(id, items[k].source)
    decreases |items|
  {
    hide HeaderLine, Rename;
    if items != [] {
      var it := items[0];
      RecordsOfItems(c, id, pos + 1 + |HeaderLine(c, id, it.source, it.body)| + |it.body| + |it.gap|, items[1..]);
    }
  }

  /** A written source and the name of a record are one file of the task. */
  ghost predicate SameFile(id: Identity, written: Bytes, name: Bytes) {
    exists file :: name == id.logical + [SLASH] + file && written in Spellings(id, file)
  }

  /** Every record names a fed file, and every fed source has a record. */
  ghost predicate NameFeeds(id: Identity, events: seq<Event>, recs: seq<Record>) {
    && (forall x :: x in recs ==> HasFeed(id, events, x))
    && (forall e :: e in events && e.Feed? ==> HasRecord(id, e.source, recs))
  }

  ghost predicate HasFeed(id: Identity, events: seq<Event>, x: Record) {
    exists e :: e in events && e.Feed? && SameFile(id, e.source, x.source)
  }

  ghost predicate HasRecord(id: Identity, source: Bytes, recs: seq<Record>) {
    exists x :: x in recs && SameFile(id, source, x.source)
  }

  /**
    Main result: every record names a file that was fed, by its logical path, and every fed source has a record.
    So no two files are ever recorded under one name.
   */
  lemma RecordNames(c: Codec, id: Identity, events: seq<Event>, archive: Bytes, start: nat, end: nat)
    requires Lawful(c) && ValidIdentity(id) && Separate(id)
    requires start <= end <= |archive| && archive[start..end] == Emit(c, id, events)
    requires Recognisable(c, id, events)
    ensures var r := Parse(c, id, archive, start, end, true);
            r.Ok? && NameFeeds(id, events, r.value)
  {
    hide Parse, Emit, Recognisable, ExpectedRecords, NameFeeds;
    ChannelRoundTrip(c, id, events, archive, start, end);
    ExpectedNames(c, id, events, start);
  }

  lemma ExpectedNames(c: Codec, id: Identity, events: seq<Event>, start: nat)
    requires Separate(id) && Recognisable(c, id, events)
    ensures NameFeeds(id, events, ExpectedRecords(c, id, start, events))
  {
    hide Normal, NoMarkerLine, Expected, Rename, NameFeeds, Separate, GoodItem, FeedsOf, SameFile;
    ItemsAreFed(events);
    var n := Normal(events);
    RecordsOfItems(c, id, start + |n.0|, n.1);
    ItemNames(c, id, n.1);
    var recs := Expected(c, id, start + |n.0|, n.1);
    forall k | 0 <= k < |n.1| ensures SameFile(id, n.1[k].source, recs[k].source) { assert n.1[k] in n.1; }
    NamesCarryOver(id, events, n.1, recs);
  }

  lemma ItemNames(c: Codec, id: Identity, items: seq<Item>)
    requires Separate(id) && forall item :: item in items ==> GoodItem(c, id, item)
    ensures forall item :: item in items ==> SameFile(id, item.source, Rename(id, item.source))
  {
    hide SameFile, Separate, HeaderLine, NoMarkerLine, Rename, SafeSource;
    forall item | item in items ensures SameFile(id, item.source, Rename(id, item.source)) {
      SafeIsFiled(id, item.source);
    }
  }

  /** Each record carries the name of its frame. */
  ghost predicate Carried(id: Identity, items: seq<Item>, recs: seq<Record>) {
    && |recs| == |items|
    && forall k :: 0 <= k < |items| ==> SameFile(id, items[k].source, recs[k].source)
  }

  lemma NamesCarryOver(id: Identity, events: seq<Event>, items: seq<Item>, recs: seq<Record>)
    requires Carried(id, items, recs) && FeedsOf(events, items)
    ensures NameFeeds(id, events, recs)
  {
    hide SameFile, Carried, FeedsOf;
    forall x | x in recs ensures HasFeed(id, events, x) {
      var k :| 0 <= k < |recs| && recs[k] == x;
      RecordHasFeed(id, events, items, recs, k);
    }
    forall e | e in events && e.Feed? ensures HasRecord(id, e.source, recs) {
      FeedHasRecord(id, events, items, recs, e);
    }
  }

  lemma RecordHasFeed(id: Identity, events: seq<Event>, items: seq<Item>, recs: seq<Record>, k: nat)
    requires k < |recs| && Carried(id, items, recs) && FeedsOf(events, items)
    ensures HasFeed(id, events, recs[k])
  {
    hide SameFile;
    assert items[k] in items && HasItem(items, items[k].source);
    var e :| e in events && e.Feed? && e.source == items[k].source;
  }

  lemma FeedHasRecord(id: Identity, events: seq<Event>, items: seq<Item>, recs: seq<Record>, e: Event)
    requires e in events && e.Feed? && Carried(id, items, recs) && FeedsOf(events, items)
    ensures HasRecord(id, e.source, recs)
  {
    hide SameFile;
    assert IsFed(events, e.source);
    var item :| item in items && item.source == e.source;
    var k :| 0 <= k < |items| && items[k] == item;
    assert recs[k] in recs;
  }

  /** `..` is a part of the path. */
  ghost predicate WayUp(name: Bytes) {
    exists a, b :: [SLASH] + name + [SLASH] == a + [SLASH, 46, 46, SLASH] + b
  }

  /** The name of a file below the task's logical directory, with no way out of it and nothing that breaks a row. */
  ghost predicate InsideTask(id: Identity, name: Bytes) {
    && (exists file :: name == id.logical + [SLASH] + file)
    && !WayUp(name)
    && TAB !in name && CARRIAGE_RETURN !in name && NEWLINE !in name && BACKSLASH !in name
  }

  /** Ranges in order, disjoint, within bounds, with true checksums, for files of the task. */
  ghost predicate SoundRecords(c: Codec, id: Identity, archive: Bytes, pos: nat, end: nat, recs: seq<Record>)
    requires pos <= end <= |archive|
    decreases |recs|
  {
    recs == [] ||
    (var r := recs[0];
     && pos < r.offset && r.offset + r.length <= end && r.sha == c.digest(archive[r.offset..r.offset + r.length])
     && InsideTask(id, r.source) && SoundRecords(c, id, archive, r.offset + r.length, end, recs[1..]))
  }

  /** Main result: the sources that are let through are exactly the names of files inside the task. */
  lemma SafeIsInside(id: Identity, source: Bytes)
    ensures SafeSource(id, source) <==> InsideTask(id, source)
  {
    hide Split;
    DotsAreAPart(source);
    if id.logical + [SLASH] <= source {
      assert source == id.logical + [SLASH] + source[|id.logical| + 1..];
    }
    if InsideTask(id, source) {
      var file :| source == id.logical + [SLASH] + file;
    }
  }

  lemma DotsAreAPart(name: Bytes)
    ensures [46, 46] in Split(name, SLASH) <==> WayUp(name)
  {
    hide Split;
    var dots: Bytes := [46, 46];
    if dots in Split(name, SLASH) {
      var a, b := PartPlace(name, SLASH, dots);
      assert a + [SLASH] + dots + [SLASH] + b == a + [SLASH, 46, 46, SLASH] + b;
    }
    if WayUp(name) {
      var a, b :| [SLASH] + name + [SLASH] == a + [SLASH, 46, 46, SLASH] + b;
      assert a + [SLASH, 46, 46, SLASH] + b == a + [SLASH] + dots + [SLASH] + b;
      PlaceIsPart(name, SLASH, dots, a, b);
    }
  }

  /** Main result: whatever bytes a range holds, every record that a scan returns is true of it. */
  lemma {:induction false} ParseSound(c: Codec, id: Identity, archive: Bytes, pos: nat, end: nat, atLineStart: bool)
    requires pos <= end <= |archive|
    ensures Sound(c, id, archive, pos, end, Parse(c, id, archive, pos, end, atLineStart))
    decreases end - pos
  {
    hide ParseHeader, LineLength, GENERIC, Sound;
    if pos == end {
      NothingFound(c, id, archive, pos, end);
    } else {
      var n := LineLength(archive[pos..end]);
      var line := archive[pos..pos + n];
      if atLineStart && GENERIC <= line {
        var h := ParseHeader(c, id, line);
        if h.Err? {
          Refused(c, id, archive, pos, end, h.error);
        } else if pos + n + h.value.1 > end || c.digest(archive[pos + n..pos + n + h.value.1]) != h.value.2 {
          Refused(c, id, archive, pos, end, Parse(c, id, archive, pos, end, atLineStart).error);
        } else {
          HeaderIsSafe(c, id, line);
          ParseSound(c, id, archive, pos + n + h.value.1, end, h.value.1 == 0);
          SoundCons(c, id, archive, pos, end, Record(h.value.0, pos + n, h.value.1, h.value.2),
                    Parse(c, id, archive, pos + n + h.value.1, end, h.value.1 == 0));
        }
      } else {
        ParseSound(c, id, archive, pos + n, end, line[n - 1] == NEWLINE);
        SoundLater(c, id, archive, pos, pos + n, end, Parse(c, id, archive, pos + n, end, line[n - 1] == NEWLINE));
      }
    }
  }

  ghost predicate Sound(c: Codec, id: Identity, archive: Bytes, pos: nat, end: nat, r: Parsed)
    requires pos <= end <= |archive|
  {
    r.Ok? ==> SoundRecords(c, id, archive, pos, end, r.value)
  }

  lemma NothingFound(c: Codec, id: Identity, archive: Bytes, pos: nat, end: nat)
    requires pos <= end <= |archive|
    ensures Sound(c, id, archive, pos, end, Ok([]))
  {
  }

  lemma Refused(c: Codec, id: Identity, archive: Bytes, pos: nat, end: nat, e: FrameError)
    requires pos <= end <= |archive|
    ensures Sound(c, id, archive, pos, end, Err(e))
  {
  }

  lemma SoundCons(c: Codec, id: Identity, archive: Bytes, pos: nat, end: nat, first: Record, rest: Parsed)
    requires pos < first.offset && first.offset + first.length <= end <= |archive|
    requires first.sha == c.digest(archive[first.offset..first.offset + first.length]) && InsideTask(id, first.source)
    requires Sound(c, id, archive, first.offset + first.length, end, rest)
    ensures Sound(c, id, archive, pos, end, Cons(first, rest))
  {
    hide InsideTask;
    if rest.Ok? { FirstAndRest(first, rest.value); }
  }

  lemma HeaderIsSafe(c: Codec, id: Identity, line: Bytes)
    requires ParseHeader(c, id, line).Ok?
    ensures InsideTask(id, ParseHeader(c, id, line).value.0)
  {
    hide SafeSource, Rename, Split, InsideTask;
    var name := ParseHeader(c, id, line).value.0;
    SafeIsInside(id, name);
  }

  lemma SoundLater(c: Codec, id: Identity, archive: Bytes, early: nat, late: nat, end: nat, r: Parsed)
    requires early <= late <= end <= |archive| && Sound(c, id, archive, late, end, r)
    ensures Sound(c, id, archive, early, end, r)
  {
    hide InsideTask;
  }

  lemma SafeIsFiled(id: Identity, source: Bytes)
    requires Separate(id) && SafeSource(id, Rename(id, source))
    ensures SameFile(id, source, Rename(id, source))
  {
    var name := Rename(id, source);
    var file := name[|id.logical| + 1..];
    assert name == id.logical + [SLASH] + file;
    FiledUnder(id, source, file);
  }

  // ---------------------------------------------------------------- the codec laws can be met

  /** Two bytes for each: one of two letters, and a byte with its high bit set. */
  function Escape(s: Bytes): (t: Bytes)
    ensures TAB !in t && NEWLINE !in t
  {
    if s == [] then []
    else (if s[0] < 128 then [65, s[0] + 128] else [66, s[0]]) + Escape(s[1..])
  }

  function Unescape(t: Bytes): Option<Bytes> {
    if t == [] then Some([])
    else if |t| == 1 || t[1] < 128 then None
    else match Unescape(t[2..])
      case None => None
      case Some(rest) => Some([if t[0] == 65 then t[1] - 128 else t[1]] + rest)
  }

  lemma EscapeStep(s: Bytes)
    requires s != []
    ensures var t := Escape(s);
            && |t| >= 2 && t[2..] == Escape(s[1..]) && t[1] >= 128
            && (if t[0] == 65 then t[1] - 128 else t[1]) == s[0]
  {
    var t, more := Escape(s), Escape(s[1..]);
    var pair: Bytes := if s[0] < 128 then [65, s[0] + 128] else [66, s[0]];
    assert t == pair + more;
    assert (pair + more)[2..] == more;
  }

  lemma {:induction false} EscapeRoundTrip(s: Bytes)
    ensures Unescape(Escape(s)) == Some(s)
  {
    if s != [] {
      EscapeStep(s);
      EscapeRoundTrip(s[1..]);
      hide Escape;
      var t := Escape(s);
      assert Unescape(t) == Some([s[0]] + s[1..]);
      assert [s[0]] + s[1..] == s;
    }
  }

  lemma ZerosAreHex(s: Bytes)
    ensures IsHex64(Zeros(64))
  {
  }

  lemma EscapeIsLawful(c: Codec)
    requires c.encode == Escape && c.decode == Unescape && forall s :: c.digest(s) == Zeros(64)
    ensures Lawful(c)
  {
    hide Escape, Unescape, Zeros, IsHex64;
    forall s ensures c.decode(c.encode(s)) == Some(s) { EscapeRoundTrip(s); }
    forall s ensures IsHex64(c.digest(s)) { ZerosAreHex(s); }
  }

  lemma LawfulCodecExists()
    ensures exists c :: Lawful(c)
  {
    hide Escape, Unescape, Zeros, Lawful;
    var digest := (s: Bytes) => Zeros(64);
    var c := Codec(Escape, Unescape, digest);
    EscapeIsLawful(c);
  }

  /** Such sources exist: 4096 bytes that the codec doubles. */
  lemma LongHeaderExists(id: Identity, data: Bytes)
    requires ValidIdentity(id)
    ensures exists c, source :: Lawful(c) && !Recognisable(c, id, [Feed(source, data)])
  {
    hide Escape, Unescape, Zeros, IsHex64, Recognisable;
    var digest := (s: Bytes) => Zeros(64);
    var c := Codec(Escape, Unescape, digest);
    EscapeIsLawful(c);
    var source: Bytes := seq(4096, _ => 97);
    EscapeLength(source);
    assert |c.encode(source)| == 8192;
    LongHeaderBreaks(c, id, source, data);
  }

  lemma {:induction false} EscapeLength(s: Bytes)
    ensures |Escape(s)| == 2 * |s|
  {
    if s != [] { EscapeLength(s[1..]); }
  }
}
