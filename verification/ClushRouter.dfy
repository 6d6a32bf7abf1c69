/**
  Routing of labelled clush output as it arrives (`_ClushDirectLog`), for one stream.
 */
module ClushRouter {
  import opened Wrappers
  import opened Bytes
  import opened Ordering

  const LIMIT := 65536

  type Name = Bytes
  type Group = string

  datatype Writer = Writer(name: Name, group: Group)

  /** Host names hold no space and no newline and are far shorter than a read chunk; a dictionary has each name once. */
  ghost predicate ValidWriters(ws: seq<Writer>) {
    && (forall i, j :: 0 <= i < j < |ws| ==> ws[i].name != ws[j].name)
    && forall w :: w in ws ==> SPACE !in w.name && NEWLINE !in w.name && |w.name| + 2 <= LIMIT
  }

  function Label(name: Name): Bytes {
    name + [COLON, SPACE]
  }

  predicate HasLabel(line: Bytes, name: Name) {
    Label(name) <= line
  }

  /** The first writer whose label starts the line. */
  function Match(ws: seq<Writer>, line: Bytes): (r: Option<Name>)
    ensures r.Some? ==> HasLabel(line, r.value) && exists w :: w in ws && w.name == r.value
    ensures r.None? ==> forall w :: w in ws ==> !HasLabel(line, w.name)
    decreases |ws|
  {
    if ws == [] then None
    else if HasLabel(line, ws[0].name) then Some(ws[0].name)
    else Match(ws[1..], line)
  }

  lemma LongerLabel(line: Bytes, a: Name, b: Name)
    requires |a| < |b| && SPACE !in b
    ensures !(HasLabel(line, a) && HasLabel(line, b))
  {
    assert Label(a)[|a| + 1] == SPACE;
    assert |a| + 1 < |b| ==> Label(b)[|a| + 1] == b[|a| + 1];
    assert Label(b)[|a| + 1] != SPACE;
    assert HasLabel(line, a) ==> line[|a| + 1] == SPACE;
    assert HasLabel(line, b) ==> line[|a| + 1] == Label(b)[|a| + 1];
  }

  /** Labels of space-free names cannot be confused with each other. */
  lemma OneLabel(line: Bytes, a: Name, b: Name)
    requires SPACE !in a && SPACE !in b
    requires HasLabel(line, a) && HasLabel(line, b)
    ensures a == b
  {
    if |a| < |b| {
      LongerLabel(line, a, b);
    } else if |b| < |a| {
      LongerLabel(line, b, a);
    } else {
      assert Label(a) == Label(b);
      assert a == Label(a)[..|a|] && b == Label(b)[..|b|];
    }
  }

  lemma LabelWithin(line: Bytes, more: Bytes, n: Name)
    ensures HasLabel(line, n) ==> HasLabel(line + more, n)
    ensures |n| + 2 <= |line| ==> (HasLabel(line + more, n) <==> HasLabel(line, n))
  {
    if |n| + 2 <= |line| {
      assert (line + more)[..|n| + 2] == line[..|n| + 2];
    }
  }

  /** More text after a matched label, or after 64 KiB, does not change the match. */
  lemma {:induction false} MatchExtends(ws: seq<Writer>, line: Bytes, more: Bytes)
    requires ValidWriters(ws)
    ensures Match(ws, line).Some? || |line| >= LIMIT ==> Match(ws, line + more) == Match(ws, line)
  {
    hide HasLabel;
    var r, m := Match(ws, line + more), Match(ws, line);
    if m.Some? {
      LabelWithin(line, more, m.value);
      OneLabel(line + more, m.value, r.value);
    } else if |line| >= LIMIT {
      forall w | w in ws ensures !HasLabel(line + more, w.name) { LabelWithin(line, more, w.name); }
    }
  }

  // ---------------------------------------------------------------- deliveries

  datatype Kind = Labelled | Diagnostic

  datatype Delivery = Delivery(writer: Name, kind: Kind, data: Bytes)

  /** What `writer` received, restricted to some kinds of delivery. */
  function Select(trace: seq<Delivery>, writer: Name, kinds: set<Kind>): Bytes {
    if trace == [] then [] else
      (if trace[0].writer == writer && trace[0].kind in kinds then trace[0].data else [])
      + Select(trace[1..], writer, kinds)
  }

  lemma {:induction false} SelectAppend(a: seq<Delivery>, b: seq<Delivery>, writer: Name, kinds: set<Kind>)
    ensures Select(a + b, writer, kinds) == Select(a, writer, kinds) + Select(b, writer, kinds)
  {
    if a == [] {
      assert a + b == b;
    } else {
      TailOfAppend(a, b);
      SelectAppend(a[1..], b, writer, kinds);
      Regroup(if a[0].writer == writer && a[0].kind in kinds then a[0].data else [],
              Select(a[1..], writer, kinds), Select(b, writer, kinds));
    }
  }

  /** The first writer of every group, in order: where unattributed lines go. */
  function FirstNames(ws: seq<Writer>, seen: set<Group>): seq<Name>
    decreases |ws|
  {
    if ws == [] then []
    else if ws[0].group in seen then FirstNames(ws[1..], seen)
    else [ws[0].name] + FirstNames(ws[1..], seen + {ws[0].group})
  }

  lemma {:induction false} FirstNamesFrom(ws: seq<Writer>, seen: set<Group>)
    requires ValidWriters(ws)
    ensures Distinct(FirstNames(ws, seen))
    ensures forall n :: n in FirstNames(ws, seen) ==> exists w :: w in ws && w.name == n && w.group !in seen
  {
    if ws != [] {
      FirstNamesFrom(ws[1..], seen);
      FirstNamesFrom(ws[1..], seen + {ws[0].group});
      forall n | n in FirstNames(ws[1..], seen + {ws[0].group}) ensures n != ws[0].name {
        var w :| w in ws[1..] && w.name == n;
      }
      var later := FirstNames(ws[1..], seen + {ws[0].group});
      forall j | 0 <= j < |later| ensures later[j] != ws[0].name { assert later[j] in later; }
      forall n | n in FirstNames(ws, seen) ensures exists w :: w in ws && w.name == n && w.group !in seen {
        if n == ws[0].name && ws[0].group !in seen {
          assert ws[0] in ws;
        } else {
          var tail := FirstNames(ws[1..], if ws[0].group in seen then seen else seen + {ws[0].group});
          assert n in tail;
          var w :| w in ws[1..] && w.name == n && w.group !in seen;
          assert w in ws;
        }
      }
    }
  }

  lemma SeenGroupSkipped(ws: seq<Writer>, seen: set<Group>, v: Writer)
    requires ValidWriters(ws) && v in ws && v.group in seen
    ensures v.name !in FirstNames(ws, seen)
  {
    hide FirstNames;
    FirstNamesFrom(ws, seen);
    forall w | w in ws && w.name == v.name ensures w == v { SameName(ws, w, v); }
  }

  ghost predicate IsFirst(ws: seq<Writer>, seen: set<Group>, w: Writer) {
    w in ws && w.name in FirstNames(ws, seen)
  }

  /** Every group has exactly one writer among the first ones. */
  lemma {:induction false} OncePerGroup(ws: seq<Writer>, seen: set<Group>, v: Writer)
    requires ValidWriters(ws) && v in ws && v.group !in seen
    ensures exists w :: IsFirst(ws, seen, w) && w.group == v.group
    ensures forall u, w :: IsFirst(ws, seen, u) && IsFirst(ws, seen, w) && u.group == w.group == v.group ==> u == w
    decreases |ws|
  {
    var rest := if ws[0].group in seen then seen else seen + {ws[0].group};
    forall u | IsFirst(ws, seen, u) && u != ws[0] ensures IsFirst(ws[1..], rest, u) {
      if u.name == ws[0].name { SameName(ws, u, ws[0]); }
    }
    if ws[0].group == v.group {
      assert IsFirst(ws, seen, ws[0]);
      forall u | u in ws[1..] && u.group == v.group ensures !IsFirst(ws[1..], rest, u) {
        SeenGroupSkipped(ws[1..], rest, u);
      }
    } else {
      OncePerGroup(ws[1..], rest, v);
      var w :| IsFirst(ws[1..], rest, w) && w.group == v.group;
      assert IsFirst(ws, seen, w);
    }
  }

  lemma SameName(ws: seq<Writer>, u: Writer, v: Writer)
    requires ValidWriters(ws) && u in ws && v in ws && u.name == v.name
    ensures u == v
  {
  }

  function ToAll(names: seq<Name>, line: Bytes): seq<Delivery> {
    if names == [] then [] else [Delivery(names[0], Diagnostic, line)] + ToAll(names[1..], line)
  }

  lemma DistinctRest(names: seq<Name>)
    requires Distinct(names) && names != []
    ensures Distinct(names[1..]) && forall n :: n in names <==> n == names[0] || n in names[1..]
    ensures names[0] !in names[1..]
  {
  }

  lemma {:induction false} SelectToAll(names: seq<Name>, line: Bytes, writer: Name, kinds: set<Kind>)
    requires Distinct(names)
    ensures Select(ToAll(names, line), writer, kinds) == if writer in names && Diagnostic in kinds then line else []
  {
    if names != [] {
      DistinctRest(names);
      hide Distinct;
      SelectToAll(names[1..], line, writer, kinds);
      SelectFirst(Delivery(names[0], Diagnostic, line), ToAll(names[1..], line), writer, kinds);
      hide Select, ToAll;
      assert line + [] == line;
    }
  }

  lemma SelectFirst(d: Delivery, rest: seq<Delivery>, writer: Name, kinds: set<Kind>)
    ensures Select([d] + rest, writer, kinds)
         == (if d.writer == writer && d.kind in kinds then d.data else []) + Select(rest, writer, kinds)
  {
    FirstAndRest(d, rest);
  }

  // ---------------------------------------------------------------- the router

  datatype State = State(pending: Bytes, active: Option<Name>, trace: seq<Delivery>)

  /** The node a line goes to. */
  function Target(ws: seq<Writer>, active: Option<Name>, line: Bytes): Option<Name> {
    if active.Some? then active else Match(ws, line)
  }

  /** `_emit`: a continuation goes to the active node; a fresh line loses its label, or goes to every group. */
  function Deliveries(ws: seq<Writer>, active: Option<Name>, line: Bytes): seq<Delivery> {
    if active.Some? then [Delivery(active.value, Labelled, line)] else
      match Match(ws, line)
      case Some(n) => [Delivery(n, Labelled, line[|n| + 2..])]
      case None => ToAll(FirstNames(ws, {}), line)
  }

  /** The loop of `feed`. */
  function Drain(ws: seq<Writer>, st: State): State
    decreases |st.pending|
  {
    var i := IndexOf(st.pending, NEWLINE);
    if i < |st.pending| then
      var line := st.pending[..i + 1];
      Drain(ws, State(st.pending[i + 1..], None, st.trace + Deliveries(ws, st.active, line)))
    else if |st.pending| >= LIMIT then
      State([], Target(ws, st.active, st.pending), st.trace + Deliveries(ws, st.active, st.pending))
    else st
  }

  /** One round of that loop. */
  lemma DrainStep(ws: seq<Writer>, st: State)
    ensures var i := IndexOf(st.pending, NEWLINE);
            Drain(ws, st) ==
            if i < |st.pending| then
              Drain(ws, State(st.pending[i + 1..], None, st.trace + Deliveries(ws, st.active, st.pending[..i + 1])))
            else if |st.pending| >= LIMIT then
              State([], Target(ws, st.active, st.pending), st.trace + Deliveries(ws, st.active, st.pending))
            else st
  {
    hide Deliveries, Target, IndexOf;
  }

  function Feed(ws: seq<Writer>, st: State, data: Bytes): State {
    Drain(ws, st.(pending := st.pending + data))
  }

  function Flush(ws: seq<Writer>, st: State): State {
    if st.pending == [] then st
    else State([], st.active, st.trace + Deliveries(ws, st.active, st.pending))
  }

  function FeedAll(ws: seq<Writer>, st: State, chunks: seq<Bytes>): State
    decreases |chunks|
  {
    if chunks == [] then st else FeedAll(ws, Feed(ws, st, chunks[0]), chunks[1..])
  }

  /** Everything delivered when the stream arrives in these chunks and is then flushed. */
  function Route(ws: seq<Writer>, chunks: seq<Bytes>): seq<Delivery> {
    Flush(ws, FeedAll(ws, State([], None, []), chunks)).trace
  }

  // ---------------------------------------------------------------- the intended result

  /** The lines of `s`, each with its newline; the last one may lack it. */
  function Lines(s: Bytes): seq<Bytes>
    decreases |s|
  {
    if s == [] then [] else
      var i := IndexOf(s, NEWLINE);
      if i == |s| then [s] else [s[..i + 1]] + Lines(s[i + 1..])
  }

  lemma {:induction false} OneLine(s: Bytes)
    requires NEWLINE !in s
    ensures Lines(s) == if s == [] then [] else [s]
  {
    assert IndexOf(s, NEWLINE) == |s|;
  }

  lemma {:induction false} NewlineAt(s: Bytes)
    requires NEWLINE in s
    ensures IndexOf(s, NEWLINE) < |s|
  {
    hide IndexOf;
    var j :| 0 <= j < |s| && s[j] == NEWLINE;
    assert IndexOf(s, NEWLINE) <= j;
  }

  lemma {:induction false} MoreLines(s: Bytes)
    requires NEWLINE in s
    ensures var i := IndexOf(s, NEWLINE); i < |s| && Lines(s) == [s[..i + 1]] + Lines(s[i + 1..])
    ensures Lines(s)[0] == s[..IndexOf(s, NEWLINE) + 1] && Lines(s)[1..] == Lines(s[IndexOf(s, NEWLINE) + 1..])
  {
    hide IndexOf;
    NewlineAt(s);
    var i := IndexOf(s, NEWLINE);
    LinesUnfold(s, i, s[..i + 1], s[i + 1..]);
    hide Lines;
    FirstAndRest(s[..i + 1], Lines(s[i + 1..]));
  }

  lemma {:induction false} LinesUnfold(s: Bytes, i: nat, line: Bytes, rest: Bytes)
    requires i == IndexOf(s, NEWLINE) < |s| && line == s[..i + 1] && rest == s[i + 1..]
    ensures Lines(s) == [line] + Lines(rest)
  {
    hide IndexOf;
    var lines := Lines(rest);
    assert Lines(s) == [line] + lines;
  }

  /** What one whole line contributes to a writer. */
  function Share(ws: seq<Writer>, writer: Name, kinds: set<Kind>, line: Bytes): Bytes {
    match Match(ws, line)
    case Some(n) => if n == writer && Labelled in kinds then line[|n| + 2..] else []
    case None => if writer in FirstNames(ws, {}) && Diagnostic in kinds then line else []
  }

  function Shares(ws: seq<Writer>, writer: Name, kinds: set<Kind>, lines: seq<Bytes>): Bytes {
    if lines == [] then [] else Share(ws, writer, kinds, lines[0]) + Shares(ws, writer, kinds, lines[1..])
  }

  function Intended(ws: seq<Writer>, writer: Name, kinds: set<Kind>, s: Bytes): Bytes {
    Shares(ws, writer, kinds, Lines(s))
  }

  /** Main result: a line that starts with a node's name, a colon and a space goes to that node alone, without them. */
  lemma LabelledShare(ws: seq<Writer>, w: Writer, rest: Bytes, writer: Name, kinds: set<Kind>)
    requires ValidWriters(ws) && w in ws
    ensures Share(ws, writer, kinds, w.name + [58, 32] + rest)
         == if writer == w.name && Labelled in kinds then rest else []
  {
    hide FirstNames;
    var line := w.name + [58, 32] + rest;
    assert HasLabel(line, w.name) by { assert Label(w.name) == w.name + [58, 32]; }
    hide HasLabel;
    OneLabel(line, w.name, Match(ws, line).value);
    assert line[|w.name| + 2..] == rest;
  }

  /** Main result: a line that no writer's label starts goes whole to the first writer of each group. */
  lemma UnlabelledShare(ws: seq<Writer>, line: Bytes, i: nat, kinds: set<Kind>)
    requires ValidWriters(ws) && i < |ws|
    requires forall w, rest: Bytes :: w in ws ==> line != w.name + [58, 32] + rest
    ensures Share(ws, ws[i].name, kinds, line)
         == if Diagnostic in kinds && forall k :: 0 <= k < i ==> ws[k].group != ws[i].group then line else []
  {
    forall w | w in ws ensures !HasLabel(line, w.name) {
      if HasLabel(line, w.name) { LabelText(line, w.name); }
    }
    hide HasLabel;
    FirstNamesExact(ws, {}, i);
  }

  lemma LabelText(line: Bytes, n: Name)
    requires HasLabel(line, n)
    ensures exists rest: Bytes :: line == n + [58, 32] + rest
  {
    assert line == n + [58, 32] + line[|n| + 2..];
  }

  lemma {:induction false} FirstNamesExact(ws: seq<Writer>, seen: set<Group>, i: nat)
    requires ValidWriters(ws) && i < |ws|
    ensures ws[i].name in FirstNames(ws, seen)
       <==> ws[i].group !in seen && forall k :: 0 <= k < i ==> ws[k].group != ws[i].group
    decreases |ws|
  {
    var rest := if ws[0].group in seen then seen else seen + {ws[0].group};
    var more := FirstNames(ws[1..], rest);
    assert FirstNames(ws, seen) == if ws[0].group in seen then more else [ws[0].name] + more;
    hide FirstNames;
    if i > 0 {
      FirstNamesExact(ws[1..], rest, i - 1);
      assert ws[1..][i - 1] == ws[i];
      assert forall k :: 0 <= k < i - 1 ==> ws[1..][k] == ws[k + 1];
      assert (forall k :: 0 <= k < i ==> ws[k].group != ws[i].group)
        <==> ws[0].group != ws[i].group && forall k :: 0 <= k < i - 1 ==> ws[1..][k].group != ws[i].group;
    } else if ws[0].group in seen {
      SeenGroupSkipped(ws, seen, ws[0]);
    }
  }

  ghost predicate Correct(ws: seq<Writer>, trace: seq<Delivery>, s: Bytes) {
    forall w, kinds :: w in ws ==> Select(trace, w.name, kinds) == Intended(ws, w.name, kinds, s)
  }

  /** No unattributed line shows a label at or after its first 64 KiB. */
  ghost predicate NoLateLabel(ws: seq<Writer>, line: Bytes) {
    Match(ws, line).None? ==> forall k :: LIMIT <= k < |line| ==> Match(ws, line[k..]).None?
  }

  ghost predicate NoLateLabels(ws: seq<Writer>, s: Bytes) {
    forall line :: line in Lines(s) ==> NoLateLabel(ws, line)
  }

  lemma SelectOne(d: Delivery, writer: Name, kinds: set<Kind>)
    ensures Select([d], writer, kinds) == if d.writer == writer && d.kind in kinds then d.data else []
  {
    var one: seq<Delivery>, none: seq<Delivery> := [d], [];
    assert one[1..] == none && Select(none, writer, kinds) == [];
    assert d.data + [] == d.data;
  }

  lemma DeliveriesSelect(ws: seq<Writer>, active: Option<Name>, line: Bytes, writer: Name, kinds: set<Kind>)
    requires ValidWriters(ws)
    ensures Select(Deliveries(ws, active, line), writer, kinds) ==
            match active
            case Some(n) => (if n == writer && Labelled in kinds then line else [])
            case None => Share(ws, writer, kinds, line)
  {
    hide Match, Select, ToAll, FirstNames, ValidWriters;
    if active.Some? {
      SelectOne(Delivery(active.value, Labelled, line), writer, kinds);
    } else if Match(ws, line).Some? {
      var n := Match(ws, line).value;
      assert |Label(n)| <= |line|;
      SelectOne(Delivery(n, Labelled, line[|n| + 2..]), writer, kinds);
    } else {
      FirstNamesFrom(ws, {});
      SelectToAll(FirstNames(ws, {}), line, writer, kinds);
    }
  }

  // ---------------------------------------------------------------- a stream fed in one piece

  /** Terminated lines are never cut: from a fresh line start one chunk is routed as intended, whatever it holds. */
  lemma {:induction false} OneChunk(ws: seq<Writer>, trace: seq<Delivery>, s: Bytes, writer: Name, kinds: set<Kind>)
    requires ValidWriters(ws)
    ensures Select(Flush(ws, Drain(ws, State(s, None, trace))).trace, writer, kinds)
         == Select(trace, writer, kinds) + Intended(ws, writer, kinds, s)
    ensures s != [] && s[|s| - 1] == NEWLINE ==>
              var st := Drain(ws, State(s, None, trace)); st.pending == [] && st.active == None
    decreases |s|
  {
    hide Deliveries, Select, Match, Target, Share, Drain, Lines, IndexOf;
    DrainStep(ws, State(s, None, trace));
    var i := IndexOf(s, NEWLINE);
    if i < |s| {
      var line, rest := s[..i + 1], s[i + 1..];
      var out := trace + Deliveries(ws, None, line);
      OneChunk(ws, out, rest, writer, kinds);
      SelectAppend(trace, Deliveries(ws, None, line), writer, kinds);
      DeliveriesSelect(ws, None, line, writer, kinds);
      MoreLines(s);
      if rest == [] { DrainStep(ws, State(rest, None, out)); } else { assert rest[|rest| - 1] == s[|s| - 1]; }
      Regroup(Select(trace, writer, kinds), Share(ws, writer, kinds, line), Intended(ws, writer, kinds, rest));
    } else {
      OneLine(s);
      if s != [] {
        SelectAppend(trace, Deliveries(ws, None, s), writer, kinds);
        DeliveriesSelect(ws, None, s, writer, kinds);
        assert Shares(ws, writer, kinds, [s]) == Share(ws, writer, kinds, s) + Shares(ws, writer, kinds, []);
      }
    }
  }

  // ---------------------------------------------------------------- any chunking

  /** What the router has done when the unfinished line is `emitted + st.pending`. */
  ghost predicate Tracks(ws: seq<Writer>, st: State, done: Bytes, emitted: Bytes, writer: Name, kinds: set<Kind>) {
    && (emitted == [] || |emitted| >= LIMIT)
    && st.active == Match(ws, emitted)
    && Select(st.trace, writer, kinds) == Intended(ws, writer, kinds, done) + Share(ws, writer, kinds, emitted)
  }

  lemma LinesStep(a: Bytes, rest: Bytes)
    requires NEWLINE !in a
    ensures Lines(a + [NEWLINE] + rest) == [a + [NEWLINE]] + Lines(rest)
  {
    var s := a + [NEWLINE] + rest;
    IndexOfAt(a, NEWLINE, rest);
    assert s[..|a| + 1] == a + [NEWLINE] && s[|a| + 1..] == rest;
  }

  lemma {:induction false} LinesAppend(done: Bytes, rest: Bytes)
    requires done == [] || done[|done| - 1] == NEWLINE
    ensures Lines(done + rest) == Lines(done) + Lines(rest)
    decreases |done|
  {
    hide Lines;
    if done == [] {
      NoLines(rest);
    } else {
      var i := IndexOf(done, NEWLINE);
      var a, more := done[..i], done[i + 1..];
      assert done == a + [NEWLINE] + more;
      assert done + rest == a + [NEWLINE] + (more + rest);
      LinesStep(a, more);
      LinesStep(a, more + rest);
      LinesAppend(more, rest);
      Regroup([a + [NEWLINE]], Lines(more), Lines(rest));
    }
  }

  lemma NoLines(rest: Bytes)
    ensures [] + rest == rest && Lines([]) + Lines(rest) == Lines(rest)
  {
  }

  lemma WholeLine(emitted: Bytes, line: Bytes)
    requires NEWLINE !in emitted && line != [] && IndexOf(line, NEWLINE) == |line| - 1
    ensures IndexOf(emitted + line, NEWLINE) == |emitted + line| - 1
  {
    var a := emitted + line[..|line| - 1];
    assert emitted + line == a + [NEWLINE] + [];
    IndexOfAt(a, NEWLINE, []);
  }

  lemma {:induction false} SharesAppend(ws: seq<Writer>, writer: Name, kinds: set<Kind>, a: seq<Bytes>, b: seq<Bytes>)
    ensures Shares(ws, writer, kinds, a + b) == Shares(ws, writer, kinds, a) + Shares(ws, writer, kinds, b)
  {
    hide Share;
    if a == [] {
      assert a + b == b;
    } else {
      TailOfAppend(a, b);
      SharesAppend(ws, writer, kinds, a[1..], b);
      Regroup(Share(ws, writer, kinds, a[0]), Shares(ws, writer, kinds, a[1..]), Shares(ws, writer, kinds, b));
    }
  }

  lemma IntendedAppend(ws: seq<Writer>, writer: Name, kinds: set<Kind>, done: Bytes, rest: Bytes)
    requires done == [] || done[|done| - 1] == NEWLINE
    ensures Intended(ws, writer, kinds, done + rest)
            == Intended(ws, writer, kinds, done) + Intended(ws, writer, kinds, rest)
  {
    LinesAppend(done, rest);
    SharesAppend(ws, writer, kinds, Lines(done), Lines(rest));
  }

  /** A newline-terminated piece without another newline, or an unterminated one, is one line. */
  lemma IntendedLine(ws: seq<Writer>, writer: Name, kinds: set<Kind>, line: Bytes)
    requires line != [] && (NEWLINE !in line || IndexOf(line, NEWLINE) == |line| - 1)
    ensures Lines(line) == [line]
    ensures Intended(ws, writer, kinds, line) == Share(ws, writer, kinds, line)
  {
    hide Share;
    var i := IndexOf(line, NEWLINE);
    if i < |line| {
      assert line[..i + 1] == line && line[i + 1..] == [];
    }
    assert Shares(ws, writer, kinds, [line]) == Share(ws, writer, kinds, line) + Shares(ws, writer, kinds, [line][1..]);
  }

  /** Delivering the next piece of a line extends the line's share, provided the piece shows no late label. */
  lemma NextPiece(ws: seq<Writer>, st: State, done: Bytes, emitted: Bytes, piece: Bytes, writer: Name, kinds: set<Kind>)
    requires ValidWriters(ws) && Tracks(ws, st, done, emitted, writer, kinds)
    requires emitted != [] && Match(ws, emitted).None? ==> Match(ws, piece).None?
    ensures Select(st.trace + Deliveries(ws, st.active, piece), writer, kinds)
         == Intended(ws, writer, kinds, done) + Share(ws, writer, kinds, emitted + piece)
    ensures |piece| >= LIMIT ==> Target(ws, st.active, piece) == Match(ws, emitted + piece)
  {
    hide Select, Deliveries, Intended, Match, FirstNames;
    SelectAppend(st.trace, Deliveries(ws, st.active, piece), writer, kinds);
    DeliveriesSelect(ws, st.active, piece, writer, kinds);
    ShareGrows(ws, writer, kinds, emitted, piece);
    MatchExtends(ws, emitted, piece);
    if emitted == [] {
      assert emitted + piece == piece;
      NoMatchInNothing(ws);
    }
    Regroup(Intended(ws, writer, kinds, done), Share(ws, writer, kinds, emitted),
            if st.active.Some? then (if st.active.value == writer && Labelled in kinds then piece else [])
            else Share(ws, writer, kinds, piece));
  }

  lemma {:induction false} NoMatchInNothing(ws: seq<Writer>)
    ensures Match(ws, []).None?
  {
    var m := Match(ws, []);
    assert m.Some? ==> |Label(m.value)| <= 0;
  }

  lemma ShareGrows(ws: seq<Writer>, writer: Name, kinds: set<Kind>, emitted: Bytes, piece: Bytes)
    requires ValidWriters(ws) && (emitted == [] || |emitted| >= LIMIT)
    requires emitted != [] && Match(ws, emitted).None? ==> Match(ws, piece).None?
    ensures Share(ws, writer, kinds, emitted + piece) == Share(ws, writer, kinds, emitted) +
            match Match(ws, emitted)
            case Some(n) => (if n == writer && Labelled in kinds then piece else [])
            case None => Share(ws, writer, kinds, piece)
  {
    hide Match, FirstNames;
    MatchExtends(ws, emitted, piece);
    NoMatchInNothing(ws);
    if emitted == [] {
      assert emitted + piece == piece;
      assert Share(ws, writer, kinds, []) == [];
      assert [] + Share(ws, writer, kinds, piece) == Share(ws, writer, kinds, piece);
    } else if Match(ws, emitted).Some? {
      var n := Match(ws, emitted).value;
      assert |Label(n)| <= |emitted|;
      assert (emitted + piece)[|n| + 2..] == emitted[|n| + 2..] + piece;
    }
  }

  /** The unfinished line so far shows no late label. */
  lemma NoLatePart(ws: seq<Writer>, s: Bytes, done: Bytes, cur: Bytes, more: Bytes)
    requires ValidWriters(ws) && NoLateLabels(ws, s)
    requires s == done + cur + more && (done == [] || done[|done| - 1] == NEWLINE) && cur != []
    requires forall k :: 0 <= k < |cur| - 1 ==> cur[k] != NEWLINE
    ensures NoLateLabel(ws, cur)
  {
    hide Match, NoLateLabel, Lines;
    assert done + cur + more == done + (cur + more);
    LinesAppend(done, cur + more);
    var line, tail := FirstLine(cur, more);
    assert line in Lines(cur + more);
    assert line in Lines(s);
    LatePrefix(ws, cur, tail);
  }

  /** The first line of `cur + more` starts with `cur`. */
  lemma FirstLine(cur: Bytes, more: Bytes) returns (line: Bytes, tail: Bytes)
    requires cur != [] && forall k :: 0 <= k < |cur| - 1 ==> cur[k] != NEWLINE
    ensures Lines(cur + more) != [] && line == Lines(cur + more)[0] && line == cur + tail
  {
    var s := cur + more;
    var i := IndexOf(s, NEWLINE);
    line := if i == |s| then s else s[..i + 1];
    assert i >= |cur| - 1;
    tail := line[|cur|..];
    assert line[..|cur|] == cur;
    assert line == cur + tail;
  }

  lemma LatePrefix(ws: seq<Writer>, cur: Bytes, tail: Bytes)
    requires ValidWriters(ws) && NoLateLabel(ws, cur + tail)
    ensures NoLateLabel(ws, cur)
  {
    hide Match;
    var line := cur + tail;
    if Match(ws, cur).None? {
      forall k | LIMIT <= k < |cur| ensures Match(ws, cur[k..]).None? {
        MatchExtends(ws, cur, tail);
        assert Match(ws, line[k..]).None?;
        assert line[k..] == cur[k..] + tail;
        MatchExtends(ws, cur[k..], tail);
      }
    }
  }

  /**
    `s` is whole lines, then an unfinished line of which `emitted` is delivered and `pending` is not, then
    unread text.
   */
  ghost predicate At(s: Bytes, done: Bytes, emitted: Bytes, pending: Bytes, more: Bytes) {
    && s == done + (emitted + pending) + more
    && (done == [] || done[|done| - 1] == NEWLINE)
    && NEWLINE !in emitted
  }

  /** One newline-terminated piece: its line is finished. */
  lemma LineDone(ws: seq<Writer>, st: State, s: Bytes, done: Bytes, emitted: Bytes, more: Bytes, writer: Name,
      kinds: set<Kind>)
      returns (next: State, done': Bytes)
    requires ValidWriters(ws) && NoLateLabels(ws, s) && NEWLINE in st.pending
    requires At(s, done, emitted, st.pending, more) && Tracks(ws, st, done, emitted, writer, kinds)
    ensures Drain(ws, st) == Drain(ws, next) && |next.pending| < |st.pending|
    ensures At(s, done', [], next.pending, more) && Tracks(ws, next, done', [], writer, kinds)
  {
    hide Select, Deliveries, Intended, Match, FirstNames, Target, Share, NoLateLabel, NoLateLabels, ValidWriters;
    hide IndexOf, Drain;
    var line, rest;
    line, rest, next := FirstPiece(ws, st);
    done' := done + (emitted + line);
    Finished(done, emitted, line, rest, more);
    PieceHasNoLabel(ws, s, done, emitted, line, rest + more);
    NextPiece(ws, st, done, emitted, line, writer, kinds);
    IntendedAppend(ws, writer, kinds, done, emitted + line);
    WholeLine(emitted, line);
    IntendedLine(ws, writer, kinds, emitted + line);
    NothingEmitted(ws, writer, kinds, done');
  }

  /** The first piece of the pending bytes is delivered. */
  lemma FirstPiece(ws: seq<Writer>, st: State) returns (line: Bytes, rest: Bytes, next: State)
    requires NEWLINE in st.pending
    ensures st.pending == line + rest && line != [] && IndexOf(line, NEWLINE) == |line| - 1
    ensures forall k :: 0 <= k < |line| - 1 ==> line[k] != NEWLINE
    ensures next == State(rest, None, st.trace + Deliveries(ws, st.active, line)) && Drain(ws, st) == Drain(ws, next)
  {
    hide Deliveries, Target, IndexOf, Drain;
    DrainStep(ws, st);
    TerminatedPiece(st.pending);
    var i := IndexOf(st.pending, NEWLINE);
    line, rest := st.pending[..i + 1], st.pending[i + 1..];
    next := State(rest, None, st.trace + Deliveries(ws, st.active, line));
  }

  lemma TerminatedPiece(text: Bytes)
    requires NEWLINE in text
    ensures var i := IndexOf(text, NEWLINE);
            i < |text| && text == text[..i + 1] + text[i + 1..] && IndexOf(text[..i + 1], NEWLINE) == i
    ensures var p := text[..IndexOf(text, NEWLINE) + 1]; forall k :: 0 <= k < |p| - 1 ==> p[k] != NEWLINE
  {
    hide IndexOf;
    var i := IndexOf(text, NEWLINE);
    assert i < |text|;
    var p := text[..i + 1];
    assert p[i] == NEWLINE;
    assert forall k :: 0 <= k < i ==> p[k] == text[k];
  }

  lemma Finished(done: Bytes, emitted: Bytes, line: Bytes, rest: Bytes, more: Bytes)
    ensures done + (emitted + (line + rest)) + more == (done + (emitted + line)) + ([] + rest) + more
    ensures done + (emitted + (line + rest)) + more == done + (emitted + line) + (rest + more)
  {
  }

  lemma LongPiece(ws: seq<Writer>, st: State, s: Bytes, done: Bytes, emitted: Bytes, more: Bytes, writer: Name,
      kinds: set<Kind>)
    requires ValidWriters(ws) && NoLateLabels(ws, s) && NEWLINE !in st.pending && |st.pending| >= LIMIT
    requires At(s, done, emitted, st.pending, more) && Tracks(ws, st, done, emitted, writer, kinds)
    ensures At(s, done, emitted + st.pending, [], more)
    ensures Tracks(ws, Drain(ws, st), done, emitted + st.pending, writer, kinds) && Drain(ws, st).pending == []
  {
    hide Select, Deliveries, Intended, Match, FirstNames, Target, Share, NoLateLabel, NoLateLabels, ValidWriters;
    PieceHasNoLabel(ws, s, done, emitted, st.pending, more);
    NextPiece(ws, st, done, emitted, st.pending, writer, kinds);
    assert emitted + st.pending + [] == emitted + st.pending;
  }

  /**
    The loop invariant of the router: after any feed, what each writer has received is what the
    whole lines and the emitted part of the unfinished line are meant to give it.
   */
  lemma {:induction false} DrainTracks(ws: seq<Writer>, st: State, s: Bytes, done: Bytes, emitted: Bytes, more: Bytes,
                                       writer: Name, kinds: set<Kind>)
      returns (done': Bytes, emitted': Bytes)
    requires ValidWriters(ws) && NoLateLabels(ws, s)
    requires At(s, done, emitted, st.pending, more) && Tracks(ws, st, done, emitted, writer, kinds)
    ensures At(s, done', emitted', Drain(ws, st).pending, more) && NEWLINE !in Drain(ws, st).pending
    ensures Tracks(ws, Drain(ws, st), done', emitted', writer, kinds)
    decreases |st.pending|
  {
    hide Tracks, At, NoLateLabels, ValidWriters, Deliveries, Target;
    if NEWLINE in st.pending {
      hide Drain;
      var next, done1 := LineDone(ws, st, s, done, emitted, more, writer, kinds);
      done', emitted' := DrainTracks(ws, next, s, done1, [], more, writer, kinds);
    } else if |st.pending| >= LIMIT {
      LongPiece(ws, st, s, done, emitted, more, writer, kinds);
      done', emitted' := done, emitted + st.pending;
    } else {
      done', emitted' := done, emitted;
    }
  }

  lemma {:induction false} FeedAllTracks(ws: seq<Writer>, st: State, chunks: seq<Bytes>, s: Bytes, done: Bytes,
      emitted: Bytes,
                                         writer: Name, kinds: set<Kind>)
      returns (done': Bytes, emitted': Bytes)
    requires ValidWriters(ws) && NoLateLabels(ws, s) && NEWLINE !in st.pending
    requires At(s, done, emitted, st.pending, Concat(chunks)) && Tracks(ws, st, done, emitted, writer, kinds)
    ensures var st' := FeedAll(ws, st, chunks);
            At(s, done', emitted', st'.pending, []) && NEWLINE !in st'.pending
                && Tracks(ws, st', done', emitted', writer, kinds)
    decreases |chunks|
  {
    hide Tracks, NoLateLabels, ValidWriters, Drain;
    if chunks == [] {
      done', emitted' := done, emitted;
    } else {
      var more := Concat(chunks[1..]);
      var fed := st.(pending := st.pending + chunks[0]);
      assert done + (emitted + st.pending) + (chunks[0] + more) == done + (emitted + fed.pending) + more;
      SameTracks(ws, st, fed, done, emitted, writer, kinds);
      var d, e := DrainTracks(ws, fed, s, done, emitted, more, writer, kinds);
      done', emitted' := FeedAllTracks(ws, Feed(ws, st, chunks[0]), chunks[1..], s, d, e, writer, kinds);
    }
  }

  lemma SameTracks(ws: seq<Writer>, a: State, b: State, done: Bytes, emitted: Bytes, writer: Name, kinds: set<Kind>)
    requires a.active == b.active && a.trace == b.trace && Tracks(ws, a, done, emitted, writer, kinds)
    ensures Tracks(ws, b, done, emitted, writer, kinds)
  {
  }

  /** Without late labels every chunking is routed as intended. */
  lemma RouteCorrect(ws: seq<Writer>, chunks: seq<Bytes>, s: Bytes, writer: Name, kinds: set<Kind>)
    requires ValidWriters(ws) && NoLateLabels(ws, s) && Concat(chunks) == s
    ensures Select(Route(ws, chunks), writer, kinds) == Intended(ws, writer, kinds, s)
  {
    hide NoLateLabels, ValidWriters, FeedAll, Deliveries, Intended, Select, Match, Share, FirstNames;
    var st := State([], None, []);
    StartTracks(ws, st, writer, kinds);
    assert s == [] + ([] + []) + s;
    var done, emitted := FeedAllTracks(ws, st, chunks, s, [], [], writer, kinds);
    var last := FeedAll(ws, st, chunks);
    var line := emitted + last.pending;
    assert s == done + line;
    IntendedAppend(ws, writer, kinds, done, line);
    if last.pending != [] {
      PieceHasNoLabel(ws, s, done, emitted, last.pending, []);
      NextPiece(ws, last, done, emitted, last.pending, writer, kinds);
      IntendedLine(ws, writer, kinds, line);
    } else {
      assert line == emitted;
      LastShare(ws, writer, kinds, line);
    }
  }

  lemma StartTracks(ws: seq<Writer>, st: State, writer: Name, kinds: set<Kind>)
    requires st == State([], None, [])
    ensures Tracks(ws, st, [], [], writer, kinds)
  {
    NoMatchInNothing(ws);
    assert Share(ws, writer, kinds, []) == [];
  }

  lemma LastShare(ws: seq<Writer>, writer: Name, kinds: set<Kind>, line: Bytes)
    requires NEWLINE !in line
    ensures Intended(ws, writer, kinds, line) == Share(ws, writer, kinds, line)
  {
    if line == [] {
      NoMatchInNothing(ws);
    } else {
      IntendedLine(ws, writer, kinds, line);
    }
  }

  lemma NothingEmitted(ws: seq<Writer>, writer: Name, kinds: set<Kind>, done: Bytes)
    ensures Match(ws, []) == None
    ensures Intended(ws, writer, kinds, done) + Share(ws, writer, kinds, []) == Intended(ws, writer, kinds, done)
  {
    NoMatchInNothing(ws);
    assert Share(ws, writer, kinds, []) == [];
  }

  lemma PieceHasNoLabel(ws: seq<Writer>, s: Bytes, done: Bytes, emitted: Bytes, piece: Bytes, more: Bytes)
    requires ValidWriters(ws) && NoLateLabels(ws, s)
    requires s == done + (emitted + piece) + more && (done == [] || done[|done| - 1] == NEWLINE)
    requires NEWLINE !in emitted && (emitted == [] || |emitted| >= LIMIT)
    requires piece != [] && forall k :: 0 <= k < |piece| - 1 ==> piece[k] != NEWLINE
    ensures emitted != [] && Match(ws, emitted).None? ==> Match(ws, piece).None?
  {
    hide Match, NoLateLabels;
    var cur := emitted + piece;
    NoLatePart(ws, s, done, cur, more);
    if emitted != [] {
      MatchExtends(ws, emitted, piece);
      assert cur[|emitted|..] == piece;
    }
  }

  // ---------------------------------------------------------------- late labels break it

  /** A line of a stream, between whole lines and the rest. */
  ghost predicate Placed(s: Bytes, before: Bytes, line: Bytes, after: Bytes) {
    && s == before + line + after && line != []
    && (before == [] || before[|before| - 1] == NEWLINE)
    && (after == [] || line[|line| - 1] == NEWLINE)
    && forall k :: 0 <= k < |line| - 1 ==> line[k] != NEWLINE
  }

  lemma {:induction false} LineAt(s: Bytes, line: Bytes) returns (before: Bytes, after: Bytes)
    requires line in Lines(s)
    ensures Placed(s, before, line, after)
    decreases |s|
  {
    hide Lines, IndexOf, Placed;
    if NEWLINE !in s {
      before, after := [], [];
      OneLine(s);
      PlacedAlone(s);
    } else {
      var i := IndexOf(s, NEWLINE);
      var first, rest := s[..i + 1], s[i + 1..];
      MoreLines(s);
      if line == first {
        before, after := [], rest;
        PlacedFirst(s, i);
      } else {
        var b;
        b, after := LineAt(rest, line);
        before := first + b;
        assert s == first + rest && first[i] == NEWLINE;
        PlacedLater(first, rest, b, line, after);
      }
    }
  }

  lemma PlacedAlone(s: Bytes)
    requires NEWLINE !in s && s != []
    ensures Placed(s, [], s, [])
  {
    assert [] + s + [] == s;
  }

  lemma PlacedFirst(s: Bytes, i: nat)
    requires i < |s| && s[i] == NEWLINE && forall k :: 0 <= k < i ==> s[k] != NEWLINE
    ensures Placed(s, [], s[..i + 1], s[i + 1..])
  {
    assert [] + s[..i + 1] + s[i + 1..] == s;
  }

  lemma PlacedLater(first: Bytes, rest: Bytes, b: Bytes, line: Bytes, after: Bytes)
    requires first != [] && first[|first| - 1] == NEWLINE && Placed(rest, b, line, after)
    ensures Placed(first + rest, first + b, line, after)
  {
    assert first + (b + line + after) == (first + b) + line + after;
  }

  const BOTH := {Labelled, Diagnostic}
}
