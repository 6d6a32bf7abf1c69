/**
  Late labels and reads of at most 64 KiB: whatever the division, the first writer of a group never gets more
  than its intended bytes, and one division before a late label gives it fewer.
 */
module ClushReads {
  import opened Wrappers
  import opened Bytes
  import opened ClushRouter

  // ---------------------------------------------------------------- an upper bound under every division

  ghost predicate LineStart(done: Bytes) {
    done == [] || done[|done| - 1] == NEWLINE
  }

  /** The first writer of a group has at least `slack` bytes less than what the stream so far should give it. */
  ghost predicate Bounded(ws: seq<Writer>, st: State, done: Bytes, emitted: Bytes, writer: Name, slack: nat) {
    && (emitted == [] || |emitted| >= LIMIT) && NEWLINE !in emitted && LineStart(done)
    && (emitted == [] ==> st.active.None?)
    && (Match(ws, emitted).Some? ==> st.active == Match(ws, emitted))
    && |Select(st.trace, writer, BOTH)| + slack <= |Intended(ws, writer, BOTH, done)|
        + |Share(ws, writer, BOTH, emitted)|
  }

  /** The first line of a text, as far as it goes. */
  function FirstLineOf(text: Bytes): Bytes {
    text[..Min(IndexOf(text, NEWLINE) + 1, |text|)]
  }

  /** The next piece of an unattributed line starts with a label and will lose it. */
  ghost predicate Owed(ws: seq<Writer>, st: State, emitted: Bytes, text: Bytes) {
    st.active.None? && emitted != [] && Match(ws, emitted).None? && Match(ws, FirstLineOf(text)).Some?
  }

  function One(gain: bool): nat {
    if gain then 1 else 0
  }

  /** Delivering a piece gives the writer no more than its share grows by, and less when a label is lost. */
  lemma PieceBound(ws: seq<Writer>, st: State, done: Bytes, emitted: Bytes, piece: Bytes, writer: Name, slack: nat,
      gain: bool)
    requires ValidWriters(ws) && writer in FirstNames(ws, {}) && Bounded(ws, st, done, emitted, writer, slack)
    requires gain ==> st.active.None? && emitted != [] && Match(ws, emitted).None? && Match(ws, piece).Some?
    ensures |Select(st.trace + Deliveries(ws, st.active, piece), writer, BOTH)| + slack + One(gain)
         <= |Intended(ws, writer, BOTH, done)| + |Share(ws, writer, BOTH, emitted + piece)|
    ensures |piece| >= LIMIT && Match(ws, emitted + piece).Some? ==>
              Target(ws, st.active, piece) == Match(ws, emitted + piece)
  {
    hide Select, Deliveries, Intended, Match, FirstNames;
    SelectAppend(st.trace, Deliveries(ws, st.active, piece), writer, BOTH);
    DeliveriesSelect(ws, st.active, piece, writer, BOTH);
    MatchExtends(ws, emitted, piece);
    NoMatchInNothing(ws);
    assert Labelled in BOTH && Diagnostic in BOTH;
    if emitted == [] || Match(ws, emitted).Some? {
      ShareGrows(ws, writer, BOTH, emitted, piece);
      if emitted == [] { assert emitted + piece == piece; }
    } else {
      assert Share(ws, writer, BOTH, emitted + piece) == emitted + piece && Share(ws, writer, BOTH, emitted) == emitted;
    }
  }

  lemma FirstOfText(text: Bytes, more: Bytes)
    ensures var i := IndexOf(text, NEWLINE);
            && (i < |text| ==> FirstLineOf(text + more) == text[..i + 1])
            && (i == |text| ==> text <= FirstLineOf(text + more))
  {
    hide IndexOf;
    var t, i, j := text + more, IndexOf(text, NEWLINE), IndexOf(text + more, NEWLINE);
    assert forall k :: 0 <= k < |text| ==> t[k] == text[k];
    if i < |text| {
      assert t[i] == NEWLINE && j == i;
      assert t[..i + 1] == text[..i + 1];
    } else {
      assert j >= |text|;
      assert t[..|text|] == text;
    }
  }

  /** Whatever `feed` does with the pending bytes, the bound stays, and an owed byte is lost with the next piece. */
  lemma {:induction false} DrainBound(ws: seq<Writer>, st: State, done: Bytes, emitted: Bytes, more: Bytes,
      writer: Name,
                                      slack: nat, gain: bool)
      returns (done': Bytes, emitted': Bytes, slack': nat, gain': bool)
    requires ValidWriters(ws) && writer in FirstNames(ws, {}) && Bounded(ws, st, done, emitted, writer, slack)
    requires gain ==> Owed(ws, st, emitted, st.pending + more)
    ensures var next := Drain(ws, st);
            && done' + (emitted' + next.pending) == done + (emitted + st.pending) && NEWLINE !in next.pending
            && Bounded(ws, next, done', emitted', writer, slack')
            && slack' + One(gain') >= slack + One(gain)
            && (gain' ==> Owed(ws, next, emitted', next.pending + more))
    decreases |st.pending|
  {
    hide Bounded, ValidWriters, Deliveries, Target, Match, FirstNames, FirstLineOf, IndexOf, Drain;
    FirstOfText(st.pending, more);
    DrainStep(ws, st);
    var i := IndexOf(st.pending, NEWLINE);
    if i < |st.pending| {
      var line, rest := st.pending[..i + 1], st.pending[i + 1..];
      var next := State(rest, None, st.trace + Deliveries(ws, st.active, line));
      LineBound(ws, st, done, emitted, writer, slack, gain);
      Positions(done, emitted, st.pending, i + 1);
      done', emitted', slack', gain' := DrainBound(ws, next, done + (emitted + line), [], more, writer,
          slack + One(gain), false);
    } else if |st.pending| >= LIMIT {
      done', emitted', slack', gain' := done, emitted + st.pending, slack + One(gain), false;
      LongBound(ws, st, done, emitted, more, writer, slack, gain);
      assert emitted + st.pending + [] == emitted + st.pending;
    } else {
      done', emitted', slack', gain' := done, emitted, slack, gain;
    }
  }

  lemma Positions(done: Bytes, emitted: Bytes, pending: Bytes, n: nat)
    requires n <= |pending|
    ensures done + (emitted + pending[..n]) + ([] + pending[n..]) == done + (emitted + pending)
  {
  }

  lemma LineBound(ws: seq<Writer>, st: State, done: Bytes, emitted: Bytes, writer: Name, slack: nat, gain: bool)
    requires ValidWriters(ws) && writer in FirstNames(ws, {}) && Bounded(ws, st, done, emitted, writer, slack)
    requires NEWLINE in st.pending
    requires var line := st.pending[..IndexOf(st.pending, NEWLINE) + 1];
             gain ==> st.active.None? && emitted != [] && Match(ws, emitted).None? && Match(ws, line).Some?
    ensures var i := IndexOf(st.pending, NEWLINE);
            var line := st.pending[..i + 1];
            Bounded(ws, State(st.pending[i + 1..], None, st.trace + Deliveries(ws, st.active, line)),
                    done + (emitted + line), [], writer, slack + One(gain))
  {
    hide Select, Deliveries, Intended, Match, FirstNames, Share, ValidWriters, IndexOf;
    TerminatedPiece(st.pending);
    var line := st.pending[..IndexOf(st.pending, NEWLINE) + 1];
    PieceBound(ws, st, done, emitted, line, writer, slack, gain);
    IntendedAppend(ws, writer, BOTH, done, emitted + line);
    WholeLine(emitted, line);
    IntendedLine(ws, writer, BOTH, emitted + line);
    NothingEmitted(ws, writer, BOTH, done + (emitted + line));
    assert (emitted + line)[|emitted + line| - 1] == NEWLINE;
  }

  lemma LongBound(ws: seq<Writer>, st: State, done: Bytes, emitted: Bytes, more: Bytes, writer: Name, slack: nat,
      gain: bool)
    requires ValidWriters(ws) && writer in FirstNames(ws, {}) && Bounded(ws, st, done, emitted, writer, slack)
    requires NEWLINE !in st.pending && |st.pending| >= LIMIT
    requires gain ==> Owed(ws, st, emitted, st.pending + more)
    ensures Bounded(ws, Drain(ws, st), done, emitted + st.pending, writer, slack + One(gain))
            && Drain(ws, st).pending == []
  {
    hide Select, Deliveries, Intended, Match, FirstNames, Share, ValidWriters, FirstLineOf, Target;
    FirstOfText(st.pending, more);
    if gain {
      var line := FirstLineOf(st.pending + more);
      assert line == st.pending + line[|st.pending|..];
      MatchExtends(ws, st.pending, line[|st.pending|..]);
    }
    PieceBound(ws, st, done, emitted, st.pending, writer, slack, gain);
  }

  lemma SameBound(ws: seq<Writer>, a: State, b: State, done: Bytes, emitted: Bytes, writer: Name, slack: nat)
    requires a.active == b.active && a.trace == b.trace && Bounded(ws, a, done, emitted, writer, slack)
    ensures Bounded(ws, b, done, emitted, writer, slack)
  {
  }

  lemma {:induction false} FeedAllBound(ws: seq<Writer>, st: State, chunks: seq<Bytes>, done: Bytes, emitted: Bytes,
      writer: Name,
                                        slack: nat, gain: bool)
      returns (done': Bytes, emitted': Bytes, slack': nat, gain': bool)
    requires ValidWriters(ws) && writer in FirstNames(ws, {}) && Bounded(ws, st, done, emitted, writer, slack)
    requires NEWLINE !in st.pending && (gain ==> Owed(ws, st, emitted, st.pending + Concat(chunks)))
    ensures var next := FeedAll(ws, st, chunks);
            && done' + (emitted' + next.pending) == done + (emitted + st.pending) + Concat(chunks)
                && NEWLINE !in next.pending
            && Bounded(ws, next, done', emitted', writer, slack')
            && slack' + One(gain') >= slack + One(gain)
            && (gain' ==> Owed(ws, next, emitted', next.pending))
    decreases |chunks|
  {
    hide Bounded, ValidWriters, Drain, Match, FirstNames, FirstLineOf;
    if chunks == [] {
      done', emitted', slack', gain' := done, emitted, slack, gain;
      assert st.pending + [] == st.pending;
    } else {
      var more := Concat(chunks[1..]);
      var fed := st.(pending := st.pending + chunks[0]);
      Regroup(st.pending, chunks[0], more);
      SameBound(ws, st, fed, done, emitted, writer, slack);
      var d, e, l, g := DrainBound(ws, fed, done, emitted, more, writer, slack, gain);
      var next := Feed(ws, st, chunks[0]);
      done', emitted', slack', gain' := FeedAllBound(ws, next, chunks[1..], d, e, writer, l, g);
      assert done + (emitted + (st.pending + chunks[0])) + more == done + (emitted + st.pending) + (chunks[0] + more);
    }
  }

  /** After the final flush every owed byte is lost. */
  lemma FlushBound(ws: seq<Writer>, st: State, done: Bytes, emitted: Bytes, writer: Name, slack: nat, gain: bool)
    requires ValidWriters(ws) && writer in FirstNames(ws, {}) && Bounded(ws, st, done, emitted, writer, slack)
    requires NEWLINE !in st.pending && (gain ==> Owed(ws, st, emitted, st.pending))
    ensures |Select(Flush(ws, st).trace, writer, BOTH)| + slack + One(gain)
         <= |Intended(ws, writer, BOTH, done + (emitted + st.pending))|
  {
    hide Select, Deliveries, Intended, Match, FirstNames, Share, ValidWriters;
    var line := emitted + st.pending;
    IntendedAppend(ws, writer, BOTH, done, line);
    LastShare(ws, writer, BOTH, line);
    NoMatchInNothing(ws);
    assert FirstLineOf(st.pending) == st.pending by { assert IndexOf(st.pending, NEWLINE) == |st.pending|; }
    if st.pending == [] {
      assert line == emitted;
    } else {
      PieceBound(ws, st, done, emitted, st.pending, writer, slack, gain);
    }
  }

  // ---------------------------------------------------------------- dividing a stream into reads

  /** No read is longer than what the pipe reader asks for. */
  predicate Short(chunks: seq<Bytes>) {
    forall i :: 0 <= i < |chunks| ==> |chunks[i]| <= LIMIT
  }

  /** Full reads, and a last one with what is left. */
  function Reads(s: Bytes): (chunks: seq<Bytes>)
    ensures Short(chunks)
    decreases |s|
  {
    if s == [] then [] else if |s| <= LIMIT then [s] else [s[..LIMIT]] + Reads(s[LIMIT..])
  }

  lemma {:induction false} ReadsConcat(s: Bytes)
    ensures Concat(Reads(s)) == s
    decreases |s|
  {
    if |s| > LIMIT {
      ReadsConcat(s[LIMIT..]);
      assert ([s[..LIMIT]] + Reads(s[LIMIT..]))[1..] == Reads(s[LIMIT..]);
    } else if s != [] {
      assert [s][1..] == [] && Concat([s]) == s + Concat([]);
    }
  }

  lemma {:induction false} FeedAllAppend(ws: seq<Writer>, st: State, a: seq<Bytes>, b: seq<Bytes>)
    ensures FeedAll(ws, st, a + b) == FeedAll(ws, FeedAll(ws, st, a), b)
    decreases |a|
  {
    hide Feed;
    if a == [] {
      assert a + b == b;
    } else {
      TailOfAppend(a, b);
      FeedAllAppend(ws, Feed(ws, st, a[0]), a[1..], b);
    }
  }

  /** A first short read, and then full ones: the router emits right before `head` ends. */
  function ReadsUpTo(head: Bytes): (chunks: seq<Bytes>)
    ensures Short(chunks)
  {
    [head[..|head| % LIMIT]] + Reads(head[|head| % LIMIT..])
  }

  lemma ReadsUpToConcat(head: Bytes)
    ensures Concat(ReadsUpTo(head)) == head
  {
    var r := |head| % LIMIT;
    ReadsConcat(head[r..]);
    assert ReadsUpTo(head)[1..] == Reads(head[r..]);
    assert head[..r] + head[r..] == head;
  }

  /** The line shows no label up to byte `k`, where an emission could put one at the start of a piece. */
  ghost predicate Unlabelled(ws: seq<Writer>, line: Bytes, k: nat) {
    && LIMIT <= k <= |line| && NEWLINE !in line[..k] && Match(ws, line).None?
    && forall j :: LIMIT <= j < k ==> Match(ws, line[j..]).None?
  }

  lemma Unmatched(ws: seq<Writer>, piece: Bytes, text: Bytes)
    requires ValidWriters(ws) && piece <= text && Match(ws, text).None?
    ensures Match(ws, piece).None?
  {
    hide Match;
    assert text == piece + text[|piece|..];
    MatchExtends(ws, piece, text[|piece|..]);
  }

  lemma LongFeed(ws: seq<Writer>, st: State, data: Bytes)
    requires st.active.None? && NEWLINE !in st.pending + data && |st.pending + data| >= LIMIT
              && Match(ws, st.pending + data).None?
    ensures Feed(ws, st, data).pending == [] && Feed(ws, st, data).active.None?
  {
    hide Deliveries, Match;
    DrainStep(ws, st.(pending := st.pending + data));
  }

  /** Full reads from byte `p` on: every emission starts at byte `e` and then at `p`, `p` + 64 KiB and so on. */
  lemma {:induction false} FullReads(ws: seq<Writer>, st: State, line: Bytes, e: nat, p: nat, k: nat)
    requires ValidWriters(ws) && Unlabelled(ws, line, k) && e <= p <= k && (k - p) % LIMIT == 0
    requires (e == 0 && p < LIMIT) || (e == p && p >= LIMIT)
    requires st.active.None? && st.pending == line[e..p]
    ensures FeedAll(ws, st, Reads(line[p..k])).pending == [] && FeedAll(ws, st, Reads(line[p..k])).active.None?
    decreases k - p
  {
    hide ValidWriters, Feed, Match;
    if p < k {
      var q := p + LIMIT;
      var c := line[p..q];
      assert q <= k && (k - q) % LIMIT == 0;
      var next := Feed(ws, st, c);
      PieceOf(line, e, p, q, k);
      Unmatched(ws, line[e..q], line[e..]);
      LongFeed(ws, st, c);
      assert next.pending == line[q..q];
      FullReads(ws, next, line, q, q, k);
      FirstRead(line[p..k]);
      assert line[p..k][..LIMIT] == c && line[p..k][LIMIT..] == line[q..k];
    } else {
      assert line[p..k] == [];
    }
  }

  lemma FirstRead(s: Bytes)
    requires |s| >= LIMIT
    ensures Reads(s) != [] && Reads(s)[0] == s[..LIMIT] && Reads(s)[1..] == Reads(s[LIMIT..])
  {
  }

  lemma PieceOf(line: Bytes, e: nat, p: nat, q: nat, k: nat)
    requires e <= p <= q <= k <= |line| && NEWLINE !in line[..k]
    ensures line[e..p] + line[p..q] == line[e..q] && NEWLINE !in line[e..q] && line[e..q] <= line[e..]
    ensures e == 0 ==> line[e..] == line
  {
    assert forall i :: e <= i < q ==> line[i] == line[..k][i];
  }

  lemma HeadFed(ws: seq<Writer>, st: State, line: Bytes, k: nat)
    requires ValidWriters(ws) && Unlabelled(ws, line, k) && st.pending == [] && st.active.None?
    ensures FeedAll(ws, st, ReadsUpTo(line[..k])).pending == [] && FeedAll(ws, st, ReadsUpTo(line[..k])).active.None?
  {
    hide ValidWriters, Match, Drain;
    var r := k % LIMIT;
    var first := line[..k][..r];
    assert first == line[..r] && line[..k][r..] == line[r..k];
    assert ReadsUpTo(line[..k])[0] == first && ReadsUpTo(line[..k])[1..] == Reads(line[r..k]);
    var next := Feed(ws, st, first);
    assert NEWLINE !in line[..r] by { PieceOf(line, 0, 0, r, k); }
    ShortFeed(ws, st, first);
    assert next.pending == line[0..r];
    FullReads(ws, next, line, 0, r, k);
  }

  lemma ShortFeed(ws: seq<Writer>, st: State, data: Bytes)
    requires st.pending == [] && NEWLINE !in data && |data| < LIMIT
    ensures Feed(ws, st, data) == st.(pending := data)
  {
    assert [] + data == data;
    DrainStep(ws, st.(pending := data));
  }

  // ---------------------------------------------------------------- late labels break it

  lemma {:induction false} FirstLate(ws: seq<Writer>, line: Bytes, k: nat) returns (first: nat)
    requires LIMIT <= k < |line| && Match(ws, line[k..]).Some?
    ensures LIMIT <= first <= k && Match(ws, line[first..]).Some?
    ensures forall j :: LIMIT <= j < first ==> Match(ws, line[j..]).None?
    decreases k
  {
    hide Match;
    if j :| LIMIT <= j < k && Match(ws, line[j..]).Some? {
      first := FirstLate(ws, line, j);
    } else {
      first := k;
    }
  }

  lemma NotShorter(done: Bytes, cur: Bytes, before: Bytes, head: Bytes)
    requires done + cur == before + head && LineStart(before) && NEWLINE !in cur
    ensures |before| <= |done|
  {
    var s := done + cur;
    forall i | |done| <= i < |s| ensures s[i] != NEWLINE { assert s[i] == cur[i - |done|]; }
    assert before != [] ==> s[|before| - 1] == before[|before| - 1];
  }

  /** A text has one division into whole lines and an unfinished one. */
  lemma EndsAtLine(done: Bytes, cur: Bytes, before: Bytes, head: Bytes)
    requires done + cur == before + head && LineStart(done) && LineStart(before) && NEWLINE !in cur && NEWLINE !in head
    ensures done == before && cur == head
  {
    NotShorter(done, cur, before, head);
    NotShorter(before, head, done, cur);
    var s := done + cur;
    assert done == s[..|done|] && before == s[..|before|] && cur == s[|done|..] && head == s[|before|..];
  }

  lemma StartBounded(ws: seq<Writer>, writer: Name)
    ensures Bounded(ws, State([], None, []), [], [], writer, 0)
  {
    NoMatchInNothing(ws);
  }

  /** Whole lines leave nothing pending and nothing active, however they are divided. */
  lemma WholeLinesFed(ws: seq<Writer>, before: Bytes, writer: Name) returns (slack: nat)
    requires ValidWriters(ws) && writer in FirstNames(ws, {}) && LineStart(before)
    ensures var st := FeedAll(ws, State([], None, []), Reads(before));
            st.pending == [] && st.active.None? && Bounded(ws, st, before, [], writer, slack)
  {
    hide ValidWriters, FirstNames, FeedAll, Match, Intended, Select, Share;
    var start := State([], None, []);
    StartBounded(ws, writer);
    ReadsConcat(before);
    var d, e, l, g := FeedAllBound(ws, start, Reads(before), [], [], writer, 0, false);
    var st := FeedAll(ws, start, Reads(before));
    slack := l;
    assert d + (e + st.pending) == before + [] by { assert [] + ([] + []) + before == before + []; }
    EndsAtLine(d, e + st.pending, before, []);
  }

  /** The offending line up to its first late label leaves the router at a piece boundary that owes a byte. */
  lemma HeadOwes(ws: seq<Writer>, st: State, before: Bytes, line: Bytes, k: nat, writer: Name, slack: nat)
      returns (slack': nat)
    requires ValidWriters(ws) && writer in FirstNames(ws, {}) && Bounded(ws, st, before, [], writer, slack)
    requires st.pending == [] && st.active.None? && Unlabelled(ws, line, k)
    ensures var next := FeedAll(ws, st, ReadsUpTo(line[..k]));
            next.pending == [] && next.active.None? && Bounded(ws, next, before, line[..k], writer, slack')
  {
    hide ValidWriters, FirstNames, FeedAll, Match, Intended, Select, Share;
    var head := line[..k];
    HeadFed(ws, st, line, k);
    ReadsUpToConcat(head);
    var d, e, l, g := FeedAllBound(ws, st, ReadsUpTo(head), before, [], writer, slack, false);
    assert before + ([] + []) == before && e + [] == e;
    EndsAtLine(d, e, before, head);
    slack' := l;
  }

  lemma RestOwed(ws: seq<Writer>, st: State, head: Bytes, rest: Bytes, after: Bytes)
    requires st.active.None? && head != [] && Match(ws, head).None? && Match(ws, rest).Some?
    requires (forall j :: 0 <= j < |rest| - 1 ==> rest[j] != NEWLINE)
              && (after == [] || (rest != [] && rest[|rest| - 1] == NEWLINE))
    ensures Owed(ws, st, head, rest + after)
  {
    hide Match, IndexOf;
    var text := rest + after;
    var i := IndexOf(text, NEWLINE);
    assert forall j :: 0 <= j < |rest| ==> text[j] == rest[j];
    assert rest == text[..|rest|];
    assert rest + [] == rest;
    assert FirstLineOf(text) == rest by {
      NoMatchInNothing(ws);
      if after != [] { assert text[|rest| - 1] == NEWLINE; }
    }
  }

  /** The division that cuts right before the line's first late label. */
  lemma CutDivision(ws: seq<Writer>, before: Bytes, line: Bytes, after: Bytes, k: nat, writer: Name)
      returns (chunks: seq<Bytes>)
    requires ValidWriters(ws) && writer in FirstNames(ws, {}) && LineStart(before)
    requires Unlabelled(ws, line, k) && k < |line| && Match(ws, line[k..]).Some?
    requires (forall j :: 0 <= j < |line| - 1 ==> line[j] != NEWLINE) && (after == [] || line[|line| - 1] == NEWLINE)
    ensures Concat(chunks) == before + line + after && Short(chunks)
    ensures |Select(Route(ws, chunks), writer, BOTH)| < |Intended(ws, writer, BOTH, before + line + after)|
  {
    hide Intended, Select, FirstNames, ValidWriters, Lines, Match, FeedAll, Bounded, Owed, Reads, ReadsUpTo, Flush;
    var head, rest := line[..k], line[k..];
    var a, b, c := Reads(before), ReadsUpTo(head), Reads(rest + after);
    chunks := a + (b + c);
    AllConcat(before, head, rest, after);
    ShortParts(a, b, c);
    var start := State([], None, []);
    var one := FeedAll(ws, start, a);
    var two := FeedAll(ws, one, b);
    FeedAllAppend(ws, start, a, b + c);
    FeedAllAppend(ws, one, b, c);
    var slack1 := WholeLinesFed(ws, before, writer);
    var slack2 := HeadOwes(ws, one, before, line, k, writer, slack1);
    Unmatched(ws, head, line);
    RestOwed(ws, two, head, rest, after);
    LosesOne(ws, two, before, head, rest + after, writer, slack2);
    FourParts(before, head, rest, after);
    assert head + rest == line;
  }

  /** A late label in an unattributed line: some division into short reads delivers something else. */
  lemma LateLabelBreaks(ws: seq<Writer>, s: Bytes, line: Bytes, k: nat) returns (chunks: seq<Bytes>)
    requires ValidWriters(ws) && line in Lines(s)
    requires Match(ws, line).None? && LIMIT <= k < |line| && Match(ws, line[k..]).Some?
    ensures Concat(chunks) == s && Short(chunks) && !Correct(ws, Route(ws, chunks), s)
  {
    hide Intended, Select, FirstNames, ValidWriters, Lines, Match, Route;
    var before, after := LineAt(s, line);
    var v :| v in ws && v.name == Match(ws, line[k..]).value;
    OncePerGroup(ws, {}, v);
    var w :| IsFirst(ws, {}, w) && w.group == v.group;
    var first := FirstLate(ws, line, k);
    chunks := CutDivision(ws, before, line, after, first, w.name);
  }

  lemma LosesOne(ws: seq<Writer>, st: State, before: Bytes, head: Bytes, text: Bytes, writer: Name, slack: nat)
    requires ValidWriters(ws) && writer in FirstNames(ws, {}) && Bounded(ws, st, before, head, writer, slack)
    requires st.pending == [] && Owed(ws, st, head, text)
    ensures |Select(Flush(ws, FeedAll(ws, st, Reads(text))).trace, writer, BOTH)| < |Intended(ws, writer, BOTH,
            before + head + text)|
  {
    hide ValidWriters, FirstNames, FeedAll, Match, Intended, Select, Bounded, Owed, Flush;
    ReadsConcat(text);
    assert [] + text == text;
    var d, e, l, g := FeedAllBound(ws, st, Reads(text), before, head, writer, slack, true);
    assert before + (head + []) + text == before + head + text;
    FlushBound(ws, FeedAll(ws, st, Reads(text)), d, e, writer, l, g);
  }

  lemma ShortParts(a: seq<Bytes>, b: seq<Bytes>, c: seq<Bytes>)
    requires Short(a) && Short(b) && Short(c)
    ensures Short(a + (b + c))
  {
  }

  lemma AllConcat(before: Bytes, head: Bytes, rest: Bytes, after: Bytes)
    ensures Concat(Reads(before) + (ReadsUpTo(head) + Reads(rest + after))) == before + (head + rest) + after
  {
    hide Reads, ReadsUpTo, Concat;
    ReadsConcat(before);
    ReadsUpToConcat(head);
    ReadsConcat(rest + after);
    ConcatAppend(Reads(before), ReadsUpTo(head) + Reads(rest + after));
    ConcatAppend(ReadsUpTo(head), Reads(rest + after));
    FourParts(before, head, rest, after);
  }

  lemma FourParts(a: Bytes, b: Bytes, c: Bytes, d: Bytes)
    ensures a + (b + (c + d)) == a + (b + c) + d && a + b + (c + d) == a + (b + c) + d
  {
  }

  /**
    Main result. The router gives every writer the intended labelled bytes and diagnostics under every division
    of the stream into reads if and only if no unattributed line of 64 KiB or more shows a node label at or after
    its first 64 KiB. Reads of at most 64 KiB already tell.
   */
  lemma ChunkingIndependent(ws: seq<Writer>, s: Bytes)
    requires ValidWriters(ws)
    ensures NoLateLabels(ws, s) <==> forall chunks: seq<Bytes> ::
              Concat(chunks) == s ==> Correct(ws, Route(ws, chunks), s)
    ensures NoLateLabels(ws, s)
       <==> forall chunks: seq<Bytes> :: Concat(chunks) == s && Short(chunks) ==> Correct(ws, Route(ws, chunks), s)
  {
    hide Select, Intended, Route, Match, Lines, ValidWriters;
    if NoLateLabels(ws, s) {
      forall chunks: seq<Bytes> | Concat(chunks) == s ensures Correct(ws, Route(ws, chunks), s) {
        forall w, kinds: set<Kind> | w in ws
            ensures Select(Route(ws, chunks), w.name, kinds) == Intended(ws, w.name, kinds, s) {
          RouteCorrect(ws, chunks, s, w.name, kinds);
        }
      }
    } else {
      var line :| line in Lines(s) && !NoLateLabel(ws, line);
      var k :| LIMIT <= k < |line| && Match(ws, line[k..]).Some?;
      var chunks := LateLabelBreaks(ws, s, line, k);
    }
  }

  const ONE_WRITER := [Writer([110], "group-1")]

  const LATE_END: Bytes := [110, COLON, SPACE, 121, NEWLINE]

  /** 64 KiB of one letter and then a label, in one line. */
  const LATE_LINE: Bytes := seq(LIMIT, _ => 120) + LATE_END

  lemma LateLineIsOneLine()
    ensures LATE_LINE in Lines(LATE_LINE)
  {
    var line := LATE_LINE;
    var front := line[..|line| - 1];
    assert NEWLINE !in front;
    assert line == front + [NEWLINE] + [];
    LinesStep(front, []);
    assert Lines(line)[0] == front + [NEWLINE] == line;
  }

  lemma LateLineLabels()
    ensures ValidWriters(ONE_WRITER) && Match(ONE_WRITER, LATE_LINE).None?
    ensures LIMIT < |LATE_LINE| && LATE_LINE[LIMIT..] == LATE_END && Match(ONE_WRITER, LATE_END).Some?
  {
    var mark := Label([110]);
    assert LATE_LINE[0] == 120 && mark[0] == 110;
    assert mark == [110, COLON, SPACE] && LATE_END[..3] == mark;
  }

  /** One writer and this line: read in two pieces, the label is taken for that of a new line. */
  lemma LateLabelExample() returns (chunks: seq<Bytes>)
    ensures ValidWriters(ONE_WRITER) && !NoLateLabels(ONE_WRITER, LATE_LINE)
    ensures Concat(chunks) == LATE_LINE && Short(chunks) && !Correct(ONE_WRITER, Route(ONE_WRITER, chunks), LATE_LINE)
  {
    hide Match, Lines, Route, Correct, ValidWriters, LATE_LINE, LATE_END, ONE_WRITER;
    LateLineIsOneLine();
    LateLineLabels();
    assert !NoLateLabel(ONE_WRITER, LATE_LINE);
    chunks := LateLabelBreaks(ONE_WRITER, LATE_LINE, LATE_LINE, LIMIT);
  }
}
