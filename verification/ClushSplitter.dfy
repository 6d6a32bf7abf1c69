/**
  The batch splitter of a finished stream (`_split_clush_labeled_output`), and exactly when it attributes what the
  router attributes.
 */
module ClushSplitter {
  import opened Wrappers
  import opened Bytes
  import opened Ordering
  import opened ClushRouter

  /** str.splitlines also breaks at these single-byte terminators. */
  predicate IsTerminator(b: Byte) {
    10 <= b <= 13 || 28 <= b <= 30
  }

  function TerminatorAt(s: Bytes): (i: nat)
    ensures i <= |s| && (i < |s| ==> IsTerminator(s[i]))
    ensures forall k :: 0 <= k < i ==> !IsTerminator(s[k])
  {
    if s == [] || IsTerminator(s[0]) then 0 else 1 + TerminatorAt(s[1..])
  }

  /** Where the first piece ends, its terminator included; CR LF is one terminator. */
  function PieceEnd(s: Bytes): (n: nat)
    requires s != []
    ensures 1 <= n <= |s|
  {
    var i := TerminatorAt(s);
    if i == |s| then i else if s[i] == CARRIAGE_RETURN && i + 1 < |s| && s[i + 1] == NEWLINE then i + 2 else i + 1
  }

  /** `value.splitlines(keepends=True)` */
  function SplitLines(s: Bytes): seq<Bytes>
    decreases |s|
  {
    if s == [] then [] else [s[..PieceEnd(s)]] + SplitLines(s[PieceEnd(s)..])
  }

  predicate LongerFirst(a: Name, b: Name) {
    |a| >= |b|
  }

  function FirstLabel(names: seq<Name>, line: Bytes): (r: Option<Name>)
    ensures r.Some? ==> r.value in names && HasLabel(line, r.value)
    ensures r.None? ==> forall n :: n in names ==> !HasLabel(line, n)
  {
    if names == [] then None else if HasLabel(line, names[0]) then Some(names[0]) else FirstLabel(names[1..], line)
  }

  /** The lines appended for `node`: those whose first matching label, longest name first, is its own. */
  function NodeText(names: seq<Name>, node: Name, lines: seq<Bytes>): Bytes {
    if lines == [] then [] else
      (if FirstLabel(names, lines[0]) == Some(node) then lines[0][|node| + 2..] else [])
          + NodeText(names, node, lines[1..])
  }

  function BatchSplit(nodes: seq<Name>, node: Name, value: Bytes): Bytes {
    NodeText(Sort(LongerFirst, nodes), node, SplitLines(value))
  }

  function NamesOf(ws: seq<Writer>): (names: seq<Name>)
    ensures |names| == |ws| && forall i :: 0 <= i < |ws| ==> names[i] == ws[i].name
  {
    seq(|ws|, i requires 0 <= i < |ws| => ws[i].name)
  }

  /** Trying longer names first finds the same label as trying the writers in their order. */
  lemma SameLabel(ws: seq<Writer>, line: Bytes)
    requires ValidWriters(ws)
    ensures FirstLabel(Sort(LongerFirst, NamesOf(ws)), line) == Match(ws, line)
  {
    hide HasLabel, Match, Sort;
    var names := Sort(LongerFirst, NamesOf(ws));
    SortKeepsElements(LongerFirst, NamesOf(ws));
    var f, m := FirstLabel(names, line), Match(ws, line);
    forall w | w in ws ensures w.name in names {
      assert w.name in NamesOf(ws);
    }
    forall n | n in names ensures exists w :: w in ws && w.name == n {
      assert n in NamesOf(ws);
      var i :| 0 <= i < |ws| && NamesOf(ws)[i] == n;
      assert ws[i] in ws;
    }
    if f.Some? && m.Some? {
      OneLabel(line, f.value, m.value);
    }
  }

  /** What the splitter appends for a writer. */
  function Text(ws: seq<Writer>, node: Name, pieces: seq<Bytes>): Bytes {
    NodeText(Sort(LongerFirst, NamesOf(ws)), node, pieces)
  }

  lemma TextStep(ws: seq<Writer>, node: Name, pieces: seq<Bytes>)
    requires ValidWriters(ws) && pieces != []
    ensures Match(ws, pieces[0]) == Some(node) ==> |node| + 2 <= |pieces[0]|
    ensures Text(ws, node, pieces) ==
            (if Match(ws, pieces[0]) == Some(node) then pieces[0][|node| + 2..] else []) + Text(ws, node, pieces[1..])
  {
    hide Sort, Match;
    SameLabel(ws, pieces[0]);
  }

  lemma {:induction false} TextAppend(ws: seq<Writer>, node: Name, a: seq<Bytes>, b: seq<Bytes>)
    requires ValidWriters(ws)
    ensures Text(ws, node, a + b) == Text(ws, node, a) + Text(ws, node, b)
  {
    hide Text, Match;
    if a == [] {
      assert a + b == b && Text(ws, node, []) == [] by { NoText(ws, node); }
    } else {
      TailOfAppend(a, b);
      TextStep(ws, node, a + b);
      TextStep(ws, node, a);
      TextAppend(ws, node, a[1..], b);
    }
  }

  lemma NoText(ws: seq<Writer>, node: Name)
    ensures Text(ws, node, []) == []
  {
  }

  // ---------------------------------------------------------------- pieces of lines

  /** After a newline the splitter starts afresh. */
  lemma {:induction false} SplitAppend(a: Bytes, rest: Bytes)
    requires a != [] && a[|a| - 1] == NEWLINE
    ensures SplitLines(a + rest) == SplitLines(a) + SplitLines(rest)
    decreases |a|
  {
    hide PieceEnd;
    SamePiece(a, rest);
    var n := PieceEnd(a);
    assert (a + rest)[..n] == a[..n] && (a + rest)[n..] == a[n..] + rest;
    if n == |a| {
      assert a[n..] == [] && [] + rest == rest;
      assert [a[..n]] + [] == [a[..n]];
    } else {
      SplitAppend(a[n..], rest);
      Regroup([a[..n]], SplitLines(a[n..]), SplitLines(rest));
    }
  }

  lemma SamePiece(a: Bytes, rest: Bytes)
    requires a != [] && a[|a| - 1] == NEWLINE
    ensures PieceEnd(a + rest) == PieceEnd(a)
  {
    hide TerminatorAt;
    var s, i := a + rest, TerminatorAt(a);
    assert forall k :: 0 <= k < |a| ==> s[k] == a[k];
    assert i < |a|;
    assert TerminatorAt(s) == i;
  }

  lemma {:induction false} PiecesAre(s: Bytes)
    ensures Concat(SplitLines(s)) == s && (forall p :: p in SplitLines(s) ==> p != [])
    decreases |s|
  {
    hide PieceEnd;
    if s != [] {
      var n := PieceEnd(s);
      PiecesAre(s[n..]);
      var all := [s[..n]] + SplitLines(s[n..]);
      assert SplitLines(s) == all && all[1..] == SplitLines(s[n..]);
      assert s[..n] + s[n..] == s;
    }
  }

  /** The pieces of all lines, one line after the other. */
  function LineTexts(ws: seq<Writer>, node: Name, lines: seq<Bytes>): Bytes {
    if lines == [] then [] else Text(ws, node, SplitLines(lines[0])) + LineTexts(ws, node, lines[1..])
  }

  // ---------------------------------------------------------------- one line

  /** Names hold no line terminator, so a label lies within the first piece of its line. */
  ghost predicate PlainNames(ws: seq<Writer>) {
    forall w, b :: w in ws && b in w.name ==> !IsTerminator(b)
  }

  /**
    A labelled line holds no terminator before its end, and in an unattributed line a piece with a label holds
    nothing else.
   */
  ghost predicate LineAgrees(ws: seq<Writer>, line: Bytes) {
    match Match(ws, line)
    case Some(_) => |SplitLines(line)| <= 1
    case None => forall p :: p in SplitLines(line) && Match(ws, p).Some? ==> |p| == |Match(ws, p).value| + 2
  }

  ghost predicate SameShare(ws: seq<Writer>, line: Bytes) {
    forall w :: w in ws ==> Text(ws, w.name, SplitLines(line)) == Share(ws, w.name, {Labelled}, line)
  }

  /** Every piece that is appended has lost its label, and the others are dropped. */
  lemma {:induction false} TextLength(ws: seq<Writer>, node: Name, pieces: seq<Bytes>)
    requires ValidWriters(ws) && forall p :: p in pieces ==> p != []
    ensures |Text(ws, node, pieces)| + |pieces| <= |Concat(pieces)|
  {
    hide Text, Match, ValidWriters;
    NoText(ws, node);
    if pieces != [] {
      TextStep(ws, node, pieces);
      assert forall p :: p in pieces[1..] ==> p in pieces;
      TextLength(ws, node, pieces[1..]);
      assert pieces[0] in pieces;
    }
  }

  lemma {:induction false} TextHolds(ws: seq<Writer>, node: Name, pieces: seq<Bytes>, p: Bytes)
    requires ValidWriters(ws) && p in pieces && Match(ws, p) == Some(node)
    ensures |node| + 2 <= |p| && |p| - |node| - 2 <= |Text(ws, node, pieces)|
  {
    hide Text, Match, ValidWriters;
    TextStep(ws, node, pieces);
    if p != pieces[0] {
      TextHolds(ws, node, pieces[1..], p);
    }
  }

  lemma {:induction false} NothingHeld(ws: seq<Writer>, node: Name, pieces: seq<Bytes>)
    requires ValidWriters(ws) && forall p :: p in pieces && Match(ws, p) == Some(node) ==> |p| == |node| + 2
    ensures Text(ws, node, pieces) == []
  {
    hide Text, Match, ValidWriters;
    NoText(ws, node);
    if pieces != [] {
      TextStep(ws, node, pieces);
      assert pieces[0] in pieces;
      NothingHeld(ws, node, pieces[1..]);
    }
  }

  /** The first piece of a labelled line has the label. */
  lemma LabelInFirstPiece(ws: seq<Writer>, line: Bytes)
    requires ValidWriters(ws) && PlainNames(ws) && line != [] && Match(ws, line).Some?
    ensures Match(ws, line[..PieceEnd(line)]) == Match(ws, line)
  {
    hide Match;
    var n := Match(ws, line).value;
    var w :| w in ws && w.name == n;
    assert line[..|n| + 2] == Label(n);
    forall k | 0 <= k < |n| + 2 ensures !IsTerminator(line[k]) {
      assert line[k] == Label(n)[k];
      assert k < |n| ==> n[k] in w.name;
    }
    assert PieceEnd(line) >= |n| + 2;
    var piece := line[..PieceEnd(line)];
    assert piece[..|n| + 2] == line[..|n| + 2];
    assert HasLabel(piece, n);
    var m := Match(ws, piece);
    assert m.Some? by { assert HasLabel(piece, w.name); }
    var u :| u in ws && u.name == m.value;
    assert SPACE !in u.name && SPACE !in w.name;
    assert HasLabel(piece, m.value);
    OneLabel(piece, n, m.value);
  }

  lemma SplitFirst(s: Bytes)
    requires s != []
    ensures SplitLines(s) == [s[..PieceEnd(s)]] + SplitLines(s[PieceEnd(s)..])
  {
  }

  /** A labelled line is attributed alike iff it is one piece: otherwise the splitter gives its node less. */
  lemma LabelledExact(ws: seq<Writer>, line: Bytes)
    requires ValidWriters(ws) && PlainNames(ws) && line != [] && Match(ws, line).Some?
    ensures SameShare(ws, line) <==> |SplitLines(line)| <= 1
  {
    hide Text, Match, ValidWriters, SplitLines, PieceEnd, PlainNames;
    var m, n := PieceEnd(line), Match(ws, line).value;
    var first, rest := line[..m], SplitLines(line[m..]);
    SplitFirst(line);
    LabelInFirstPiece(ws, line);
    PiecesAre(line[m..]);
    assert ([first] + rest)[1..] == rest;
    forall node ensures Text(ws, node, SplitLines(line))
        == (if n == node then first[|n| + 2..] else []) + Text(ws, node, rest) {
      TextStep(ws, node, SplitLines(line));
    }
    if rest == [] {
      assert line[m..] == [] && first == line;
      forall w | w in ws ensures Text(ws, w.name, SplitLines(line))
          == Share(ws, w.name, {Labelled}, line) { NoText(ws, w.name); }
    } else {
      var w :| w in ws && w.name == n;
      TextLength(ws, n, rest);
      assert |line| == |first| + |line[m..]|;
      assert |Text(ws, n, SplitLines(line))| < |line| - |n| - 2;
      assert |Share(ws, w.name, {Labelled}, line)| == |line| - |n| - 2;
    }
  }

  /** An unattributed line is attributed alike iff no piece of it passes for a labelled line. */
  lemma UnlabelledExact(ws: seq<Writer>, line: Bytes)
    requires ValidWriters(ws) && Match(ws, line).None?
    ensures SameShare(ws, line) <==> LineAgrees(ws, line)
  {
    hide Text, Match, ValidWriters, SplitLines, FirstNames;
    var pieces := SplitLines(line);
    assert Diagnostic !in {Labelled};
    if LineAgrees(ws, line) {
      forall w | w in ws ensures Text(ws, w.name, pieces) == [] { NothingHeld(ws, w.name, pieces); }
    } else {
      var p :| p in pieces && Match(ws, p).Some? && |p| != |Match(ws, p).value| + 2;
      var w :| w in ws && w.name == Match(ws, p).value;
      TextHolds(ws, w.name, pieces, p);
      assert Share(ws, w.name, {Labelled}, line) == [];
    }
  }

  lemma LineExact(ws: seq<Writer>, line: Bytes)
    requires ValidWriters(ws) && PlainNames(ws) && line != []
    ensures SameShare(ws, line) <==> LineAgrees(ws, line)
  {
    hide Match, ValidWriters, SplitLines, PlainNames, SameShare;
    if Match(ws, line).Some? { LabelledExact(ws, line); } else { UnlabelledExact(ws, line); }
  }

  // ---------------------------------------------------------------- whole streams

  /** Lines start where the stream or the previous line ends, and only the last one may lack its newline. */
  lemma {:induction false} SplitByLines(ws: seq<Writer>, node: Name, s: Bytes)
    requires ValidWriters(ws)
    ensures Text(ws, node, SplitLines(s)) == LineTexts(ws, node, Lines(s))
    decreases |s|
  {
    hide Text, SplitLines, ValidWriters, Lines, IndexOf;
    if s == [] {
      OneLine(s);
      NoText(ws, node);
      NoPieces();
    } else if NEWLINE !in s {
      OneLine(s);
      assert [s][1..] == [];
      assert Text(ws, node, SplitLines(s)) + [] == Text(ws, node, SplitLines(s));
    } else {
      TerminatedPiece(s);
      var i := IndexOf(s, NEWLINE);
      var line, rest := s[..i + 1], s[i + 1..];
      assert line[|line| - 1] == NEWLINE;
      SplitAppend(line, rest);
      TextAppend(ws, node, SplitLines(line), SplitLines(rest));
      SplitByLines(ws, node, rest);
      MoreLines(s);
    }
  }

  lemma NoPieces()
    ensures SplitLines([]) == []
  {
  }

  /** The splitter attributes to every writer what the router is meant to. */
  ghost predicate Agrees(ws: seq<Writer>, s: Bytes) {
    forall w :: w in ws ==> BatchSplit(NamesOf(ws), w.name, s) == Intended(ws, w.name, {Labelled}, s)
  }

  ghost predicate AgreesOn(ws: seq<Writer>, lines: seq<Bytes>) {
    forall w :: w in ws ==> LineTexts(ws, w.name, lines) == Shares(ws, w.name, {Labelled}, lines)
  }

  lemma {:induction false} LineTextsAppend(ws: seq<Writer>, node: Name, a: seq<Bytes>, b: seq<Bytes>)
    ensures LineTexts(ws, node, a + b) == LineTexts(ws, node, a) + LineTexts(ws, node, b)
  {
    hide Text, SplitLines;
    if a == [] {
      assert a + b == b;
    } else {
      TailOfAppend(a, b);
      LineTextsAppend(ws, node, a[1..], b);
      Regroup(Text(ws, node, SplitLines(a[0])), LineTexts(ws, node, a[1..]), LineTexts(ws, node, b));
    }
  }

  /** With one more line both sides gain what that line gives. */
  lemma OneMore(ws: seq<Writer>, lines: seq<Bytes>, line: Bytes)
    requires AgreesOn(ws, lines)
    ensures AgreesOn(ws, lines + [line]) <==> SameShare(ws, line)
  {
    hide Text, SplitLines, Share, LineTexts, Shares;
    forall w | w in ws
      ensures LineTexts(ws, w.name, lines + [line]) == Shares(ws, w.name, {Labelled}, lines + [line])
         <==> Text(ws, w.name, SplitLines(line)) == Share(ws, w.name, {Labelled}, line)
    {
      LineTextsAppend(ws, w.name, lines, [line]);
      SharesAppend(ws, w.name, {Labelled}, lines, [line]);
      OneLineTexts(ws, w.name, line);
      Cancel(LineTexts(ws, w.name, lines), Text(ws, w.name, SplitLines(line)), Share(ws, w.name, {Labelled}, line));
    }
  }

  lemma Cancel(a: Bytes, x: Bytes, y: Bytes)
    ensures a + x == a + y <==> x == y
  {
    assert (a + x)[|a|..] == x && (a + y)[|a|..] == y;
  }

  lemma OneLineTexts(ws: seq<Writer>, node: Name, line: Bytes)
    ensures LineTexts(ws, node, [line]) == Text(ws, node, SplitLines(line))
    ensures Shares(ws, node, {Labelled}, [line]) == Share(ws, node, {Labelled}, line)
  {
    hide Text, SplitLines, Share;
    assert [line][1..] == [];
    assert Text(ws, node, SplitLines(line)) + [] == Text(ws, node, SplitLines(line));
    assert Share(ws, node, {Labelled}, line) + [] == Share(ws, node, {Labelled}, line);
  }

  /** Agreement on every first part of some lines is agreement on each line. */
  lemma {:induction false} PartsExact(ws: seq<Writer>, lines: seq<Bytes>)
    requires ValidWriters(ws) && PlainNames(ws) && forall line :: line in lines ==> line != []
    ensures (forall k :: 0 <= k <= |lines| ==> AgreesOn(ws, lines[..k])) <==>
            forall line :: line in lines ==> LineAgrees(ws, line)
  {
    hide AgreesOn, LineAgrees, ValidWriters, PlainNames, SameShare;
    if lines == [] {
      NothingToAgree(ws);
      assert lines[..0] == [];
    } else {
      var n := |lines| - 1;
      var front, last := lines[..n], lines[n];
      assert forall line :: line in front ==> line in lines;
      PartsExact(ws, front);
      assert lines == front + [last] && last in lines && lines[..n + 1] == lines;
      assert forall k :: 0 <= k <= n ==> front[..k] == lines[..k];
      assert forall line :: line in lines <==> line in front || line == last;
      LineExact(ws, last);
      if AgreesOn(ws, front) {
        OneMore(ws, front, last);
      }
      assert front[..n] == front;
    }
  }

  lemma NothingToAgree(ws: seq<Writer>)
    ensures AgreesOn(ws, [])
  {
  }

  lemma AgreesByLines(ws: seq<Writer>, s: Bytes)
    requires ValidWriters(ws)
    ensures Agrees(ws, s) <==> AgreesOn(ws, Lines(s))
  {
    hide Text, SplitLines, Lines, LineTexts, Shares, ValidWriters;
    forall w | w in ws ensures BatchSplit(NamesOf(ws), w.name, s) == LineTexts(ws, w.name, Lines(s)) {
      SplitByLines(ws, w.name, s);
      IsText(ws, w.name, s);
    }
  }

  lemma IsText(ws: seq<Writer>, node: Name, s: Bytes)
    ensures BatchSplit(NamesOf(ws), node, s) == Text(ws, node, SplitLines(s))
  {
  }

  /** A stream cut after some of its lines. */
  function FirstLines(s: Bytes, k: nat): Bytes
    requires k <= |Lines(s)|
  {
    Concat(Lines(s)[..k])
  }

  lemma {:induction false} LinesOfFirst(s: Bytes, k: nat)
    requires k <= |Lines(s)|
    ensures Lines(FirstLines(s, k)) == Lines(s)[..k]
    decreases |s|
  {
    hide Lines, IndexOf;
    if k == 0 {
      assert Lines(s)[..0] == [] && Concat(Lines(s)[..0]) == [];
      OneLine([]);
    } else if NEWLINE !in s {
      OneLine(s);
      assert k == 1 && Lines(s)[..1] == [s] && [s][1..] == [];
      assert Concat([s]) == s + Concat([]) && s + [] == s;
      assert FirstLines(s, 1) == s;
    } else {
      MoreLines(s);
      var i := IndexOf(s, NEWLINE);
      var rest := s[i + 1..];
      LinesOfFirst(rest, k - 1);
      assert Lines(s)[..k][0] == s[..i + 1] && Lines(s)[..k][1..] == Lines(rest)[..k - 1];
      assert s[..i + 1] == s[..i] + [NEWLINE] && NEWLINE !in s[..i];
      LinesStep(s[..i], FirstLines(rest, k - 1));
      assert Lines(s)[..k] == [s[..i + 1]] + Lines(rest)[..k - 1];
    }
  }

  lemma {:induction false} NoEmptyLine(s: Bytes)
    ensures forall line :: line in Lines(s) ==> line != []
    decreases |s|
  {
    hide Lines, IndexOf;
    if NEWLINE !in s {
      OneLine(s);
    } else {
      MoreLines(s);
      NoEmptyLine(s[IndexOf(s, NEWLINE) + 1..]);
    }
  }

  /**
    Main result. Splitter and router attribute the same bytes as the stream goes on, after each of its lines, if and
    only if no labelled line holds an inner line terminator and no piece of an unattributed line passes for a labelled
    line with a text of its own.
   */
  lemma AgreementExact(ws: seq<Writer>, s: Bytes)
    requires ValidWriters(ws) && PlainNames(ws)
    ensures (forall k :: 0 <= k <= |Lines(s)| ==> Agrees(ws, FirstLines(s, k)))
       <==> forall line :: line in Lines(s) ==> LineAgrees(ws, line)
  {
    hide Lines, LineAgrees, ValidWriters, PlainNames, Agrees, AgreesOn, FirstLines;
    NoEmptyLine(s);
    PartsExact(ws, Lines(s));
    forall k | 0 <= k <= |Lines(s)| ensures Agrees(ws, FirstLines(s, k)) <==> AgreesOn(ws, Lines(s)[..k]) {
      LinesOfFirst(s, k);
      AgreesByLines(ws, FirstLines(s, k));
    }
  }

  /** Main result: on such a stream the router gives each node the splitter's text, however the stream is divided. */
  lemma RouterAgreesWithSplitter(ws: seq<Writer>, chunks: seq<Bytes>, s: Bytes, w: Writer)
    requires ValidWriters(ws) && PlainNames(ws) && w in ws && Concat(chunks) == s && NoLateLabels(ws, s)
    requires forall line :: line in Lines(s) ==> LineAgrees(ws, line)
    ensures Select(Route(ws, chunks), w.name, {Labelled}) == BatchSplit(NamesOf(ws), w.name, s)
  {
    hide Select, Route, Lines, LineAgrees, NoLateLabels, ValidWriters, PlainNames, BatchSplit, Intended, FirstLines;
    RouteCorrect(ws, chunks, s, w.name, {Labelled});
    AgreementExact(ws, s);
    AllLines(s);
    assert Agrees(ws, FirstLines(s, |Lines(s)|));
  }

  lemma {:induction false} AllLines(s: Bytes)
    ensures FirstLines(s, |Lines(s)|) == s
    decreases |s|
  {
    hide Lines, IndexOf;
    assert Lines(s)[..|Lines(s)|] == Lines(s);
    if NEWLINE !in s {
      OneLine(s);
      if s != [] { assert [s][1..] == [] && Concat([s]) == s + Concat([]); }
    } else {
      MoreLines(s);
      var rest := s[IndexOf(s, NEWLINE) + 1..];
      AllLines(rest);
      assert Lines(rest)[..|Lines(rest)|] == Lines(rest);
    }
  }

  predicate EndsWell(s: Bytes, k: nat) {
    k < |s| && (s[k] == NEWLINE || (s[k] == CARRIAGE_RETURN && k + 1 < |s| && s[k + 1] == NEWLINE))
  }

  /** A stream whose only line terminators are LF and CR LF. */
  ghost predicate UnixOrDos(s: Bytes) {
    forall k :: 0 <= k < |s| && IsTerminator(s[k]) ==> EndsWell(s, k)
  }

  lemma UnixOrDosParts(s: Bytes, i: nat)
    requires UnixOrDos(s) && i < |s| && s[i] == NEWLINE
    ensures UnixOrDos(s[..i + 1]) && UnixOrDos(s[i + 1..])
  {
    var line, rest := s[..i + 1], s[i + 1..];
    forall k | 0 <= k < |line| && IsTerminator(line[k]) ensures EndsWell(line, k) {
      assert EndsWell(s, k);
    }
    forall k | 0 <= k < |rest| && IsTerminator(rest[k]) ensures EndsWell(rest, k) {
      assert rest[k] == s[i + 1 + k];
      assert EndsWell(s, i + 1 + k);
    }
  }

  /** Every line of such a stream is one piece, so both attribute it alike. */
  lemma {:induction false} UnixOrDosAgrees(ws: seq<Writer>, s: Bytes)
    requires UnixOrDos(s)
    ensures forall line :: line in Lines(s) ==> LineAgrees(ws, line)
    decreases |s|
  {
    hide Lines, IndexOf, Match, UnixOrDos, LineAgrees;
    if NEWLINE !in s {
      OneLine(s);
      if s != [] { OnePiece(ws, s); }
    } else {
      var i := IndexOf(s, NEWLINE);
      MoreLines(s);
      UnixOrDosParts(s, i);
      OnePiece(ws, s[..i + 1]);
      UnixOrDosAgrees(ws, s[i + 1..]);
    }
  }

  lemma OnePiece(ws: seq<Writer>, line: Bytes)
    requires line != [] && UnixOrDos(line) && forall k :: 0 <= k < |line| - 1 ==> line[k] != NEWLINE
    ensures SplitLines(line) == [line] && LineAgrees(ws, line)
  {
    WholePiece(line);
    hide PieceEnd, Match, UnixOrDos;
    assert line[..|line|] == line && line[|line|..] == [];
    assert SplitLines(line) == [line] + SplitLines([]);
  }

  lemma WholePiece(line: Bytes)
    requires line != [] && UnixOrDos(line) && forall k :: 0 <= k < |line| - 1 ==> line[k] != NEWLINE
    ensures PieceEnd(line) == |line|
  {
    hide TerminatorAt;
    var i := TerminatorAt(line);
    assert i < |line| ==> EndsWell(line, i);
  }

  const ONE_WRITER := [Writer([110], "group-1")]

  /** An unattributed line with a carriage return before something that looks like a label. */
  const SPLIT_LINE: Bytes := [120, CARRIAGE_RETURN, 110, COLON, SPACE, 121, NEWLINE]

  const INNER_PIECE: Bytes := [110, COLON, SPACE, 121, NEWLINE]

  lemma PieceAt(s: Bytes, i: nat)
    requires i < |s| && IsTerminator(s[i]) && forall k :: 0 <= k < i ==> !IsTerminator(s[k])
    requires i + 1 < |s| ==> s[i + 1] != NEWLINE
    ensures SplitLines(s) == [s[..i + 1]] + SplitLines(s[i + 1..])
  {
    hide TerminatorAt, SplitLines;
    assert TerminatorAt(s) == i;
    SplitFirst(s);
  }

  lemma SplitLinePieces()
    ensures INNER_PIECE in SplitLines(SPLIT_LINE)
  {
    hide SplitLines;
    PieceAt(SPLIT_LINE, 1);
    assert SPLIT_LINE[2..] == INNER_PIECE;
    PieceAt(INNER_PIECE, 4);
    assert INNER_PIECE[..5] == INNER_PIECE;
    assert ([SPLIT_LINE[..2]] + SplitLines(INNER_PIECE))[1] == INNER_PIECE;
  }

  lemma SplitLineLabels()
    ensures ValidWriters(ONE_WRITER) && PlainNames(ONE_WRITER)
    ensures Match(ONE_WRITER, SPLIT_LINE).None? && Match(ONE_WRITER, INNER_PIECE) == Some([110])
    ensures |INNER_PIECE| == 5
  {
    var mark := Label([110]);
    assert mark == [110, COLON, SPACE] && SPLIT_LINE[0] == 120 && INNER_PIECE[..3] == mark;
    assert mark <= INNER_PIECE && !(mark <= SPLIT_LINE);
  }

  lemma SplitLineIsOneLine()
    ensures Lines(SPLIT_LINE) == [SPLIT_LINE] && SPLIT_LINE != []
  {
    var front := SPLIT_LINE[..6];
    assert NEWLINE !in front && SPLIT_LINE == front + [NEWLINE] && SPLIT_LINE == front + [NEWLINE] + [];
    LinesStep(front, []);
    OneLine([]);
  }

  /** The splitter attributes the end of this line to the node, the router the whole line to nobody. */
  lemma InnerTerminatorExample()
    ensures ValidWriters(ONE_WRITER) && PlainNames(ONE_WRITER) && Lines(SPLIT_LINE) == [SPLIT_LINE]
    ensures !LineAgrees(ONE_WRITER, SPLIT_LINE) && !Agrees(ONE_WRITER, SPLIT_LINE)
  {
    hide Match, SplitLines, Lines, SPLIT_LINE, INNER_PIECE, ONE_WRITER, ValidWriters, PlainNames, Agrees, AgreesOn;
    SplitLinePieces();
    SplitLineLabels();
    SplitLineIsOneLine();
    LineExact(ONE_WRITER, SPLIT_LINE);
    AgreesByLines(ONE_WRITER, SPLIT_LINE);
    NothingToAgree(ONE_WRITER);
    OneMore(ONE_WRITER, [], SPLIT_LINE);
    assert [] + [SPLIT_LINE] == [SPLIT_LINE];
  }
}
