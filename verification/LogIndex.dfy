/** The text of the archive index: printed by `_archive_file`, read back by `_rows`. */
module LogIndex {
  import opened Wrappers
  import opened Bytes

  const HEADER := "source\tarchive\toffset\tlength\tsha256"

  /** One index line; the dictionary keeps the four values as text. */
  datatype Entry = Entry(source: string, archive: string, offset: string, length: string, sha: string)

  /** Where str.splitlines breaks a text. */
  predicate IsBoundary(c: char) {
    c == '\n' || c == '\r' || c == '\U{0B}' || c == '\U{0C}' || '\U{1C}' <= c <= '\U{1E}'
    || c == '\U{85}' || c == '\U{2028}' || c == '\U{2029}'
  }

  predicate AllDigits(s: string) {
    s != [] && forall k :: 0 <= k < |s| ==> '0' <= s[k] <= '9'
  }

  predicate Clean(s: string) {
    forall k :: 0 <= k < |s| ==> s[k] != '\t' && !IsBoundary(s[k])
  }

  /** What `_source` lets through. */
  predicate Accepted(source: string) {
    '\t' !in source && '\r' !in source && '\n' !in source
  }

  /** An accepted source, and what the writer prints in the other columns. */
  predicate WellFormed(e: Entry) {
    && Accepted(e.source)
    && Clean(e.archive) && AllDigits(e.offset) && AllDigits(e.length) && Clean(e.sha)
  }

  function Fields(e: Entry): seq<string> {
    [e.source, e.archive, e.offset, e.length, e.sha]
  }

  function PrintRows(entries: seq<Entry>): string {
    if entries == [] then "" else Join(Fields(entries[0]), '\t') + ['\n'] + PrintRows(entries[1..])
  }

  function PrintIndex(entries: seq<Entry>): string {
    HEADER + ['\n'] + PrintRows(entries)
  }

  function BoundaryAt(s: string): (i: nat)
    ensures i <= |s| && (i < |s| ==> IsBoundary(s[i]))
    ensures forall k :: 0 <= k < i ==> !IsBoundary(s[k])
  {
    if s == [] || IsBoundary(s[0]) then 0 else 1 + BoundaryAt(s[1..])
  }

  /** text.splitlines() */
  function SplitLines(s: string): seq<string>
    decreases |s|
  {
    if s == [] then [] else
      var i := BoundaryAt(s);
      if i == |s| then [s]
      else if s[i] == '\r' && i + 1 < |s| && s[i + 1] == '\n' then [s[..i]] + SplitLines(s[i + 2..])
      else [s[..i]] + SplitLines(s[i + 1..])
  }

  function ParseLine(line: string): Option<Entry> {
    var f := Split(line, '\t');
    if |f| != 5 || !AllDigits(f[2]) || !AllDigits(f[3]) then None else Some(Entry(f[0], f[1], f[2], f[3], f[4]))
  }

  function ParseRows(lines: seq<string>): Option<seq<Entry>> {
    if lines == [] then Some([]) else
      match ParseLine(lines[0])
      case None => None
      case Some(e) =>
        match ParseRows(lines[1..])
        case None => None
        case Some(rest) => Some([e] + rest)
  }

  /** `_rows`: the entries in file order; None for a rejected index. */
  function ParseIndex(text: string): Option<seq<Entry>> {
    var lines := SplitLines(text);
    if lines == [] || lines[0] != HEADER then None else ParseRows(lines[1..])
  }

  // ---------------------------------------------------------------- which texts are an index

  ghost predicate NoBoundary(s: string) {
    forall k :: 0 <= k < |s| ==> !IsBoundary(s[k])
  }

  /** A line end: CR LF together, another boundary, or the end of the text. */
  ghost predicate LineEnd(ending: string, rest: string) {
    || (ending == "" && rest == "")
    || ending == ['\r', '\n']
    || (|ending| == 1 && IsBoundary(ending[0]) && !(ending == ['\r'] && rest != "" && rest[0] == '\n'))
  }

  /** The text starts with this line and line end; only a last line that is not empty may lack the end. */
  ghost predicate FirstCut(s: string, line: string, ending: string, rest: string) {
    s == line + ending + rest && NoBoundary(line) && LineEnd(ending, rest) && (ending == "" ==> line != "")
  }

  /** The text is cut into these lines; a last line end starts no further line. */
  ghost predicate CutLines(s: string, lines: seq<string>)
    decreases |lines|
  {
    if lines == [] then s == ""
    else exists ending, rest :: FirstCut(s, lines[0], ending, rest) && CutLines(rest, lines[1..])
  }

  lemma NoBoundaryAt(s: string)
    ensures BoundaryAt(s) == |s| <==> NoBoundary(s)
    ensures NoBoundary(s[..BoundaryAt(s)])
  {
    hide IsBoundary;
    var i := BoundaryAt(s);
    assert forall k :: 0 <= k < i ==> s[..i][k] == s[k];
  }

  /** The first line of a text, its end and what follows. */
  lemma FirstLine(s: string) returns (line: string, ending: string, rest: string)
    requires s != ""
    ensures FirstCut(s, line, ending, rest)
    ensures |rest| < |s| && SplitLines(s) == [line] + SplitLines(rest)
  {
    hide BoundaryAt;
    NoBoundaryAt(s);
    var i := BoundaryAt(s);
    line := s[..i];
    if i == |s| {
      ending, rest := "", "";
      assert line == s && s == line + ending + rest;
    } else if s[i] == '\r' && i + 1 < |s| && s[i + 1] == '\n' {
      ending, rest := ['\r', '\n'], s[i + 2..];
      assert s == line + ending + rest;
    } else {
      ending, rest := [s[i]], s[i + 1..];
      assert s == line + ending + rest;
      assert rest != "" ==> rest[0] == s[i + 1];
    }
  }

  lemma OneEnd(s: string, line: string, ending: string, rest: string)
    requires FirstCut(s, line, ending, rest)
    ensures s != "" && SplitLines(s) == [line] + SplitLines(rest)
  {
    hide BoundaryAt, IsBoundary;
    CarriageReturnEnds();
    assert forall k :: 0 <= k < |line| ==> s[k] == line[k];
    if ending == "" {
      assert s == line;
      NoBoundaryAt(s);
    } else {
      assert s[|line|] == ending[0];
      BoundaryIs(s, |line|);
      assert s[..|line|] == line && s[|line| + |ending|..] == rest;
      assert |line| + 1 < |s| ==> s[|line| + 1] == (ending + rest)[1];
    }
  }

  lemma CarriageReturnEnds()
    ensures IsBoundary('\r')
  {
  }

  lemma {:induction false} LinesAreCut(s: string)
    ensures CutLines(s, SplitLines(s))
    decreases |s|
  {
    hide BoundaryAt, FirstCut;
    if s != "" {
      var line, ending, rest := FirstLine(s);
      LinesAreCut(rest);
      hide SplitLines;
      FirstAndRest(line, SplitLines(rest));
    }
  }

  lemma {:induction false} CutIsLines(s: string, lines: seq<string>)
    requires CutLines(s, lines)
    ensures lines == SplitLines(s)
    decreases |lines|
  {
    hide BoundaryAt, FirstCut;
    if lines != [] {
      var ending, rest :| FirstCut(s, lines[0], ending, rest) && CutLines(rest, lines[1..]);
      OneEnd(s, lines[0], ending, rest);
      hide SplitLines;
      CutIsLines(rest, lines[1..]);
      assert lines == [lines[0]] + lines[1..];
    }
  }

  /** Main result: the lines of a text are the ones that it can be cut into. */
  lemma SplitLinesExact(s: string, lines: seq<string>)
    ensures lines == SplitLines(s) <==> CutLines(s, lines)
  {
    hide CutLines, SplitLines;
    LinesAreCut(s);
    if CutLines(s, lines) { CutIsLines(s, lines); }
  }

  /** The line holds the five fields of the entry, and offset and length are numbers. */
  ghost predicate RowOf(line: string, e: Entry) {
    && line == Join(Fields(e), '\t') && (forall x :: x in Fields(e) ==> '\t' !in x)
    && AllDigits(e.offset) && AllDigits(e.length)
  }

  lemma ParseLineExact(line: string, e: Entry)
    ensures ParseLine(line) == Some(e) <==> RowOf(line, e)
  {
    hide Split, Join;
    var f := Split(line, '\t');
    JoinSplit(line, '\t');
    if ParseLine(line) == Some(e) {
      assert f == [f[0], f[1], f[2], f[3], f[4]] == Fields(e);
    }
    if RowOf(line, e) {
      SplitJoin(Fields(e), '\t');
      assert f[0] == e.source && f[1] == e.archive && f[2] == e.offset && f[3] == e.length && f[4] == e.sha;
    }
  }

  lemma {:induction false} ParseRowsExact(lines: seq<string>, entries: seq<Entry>)
    ensures ParseRows(lines) == Some(entries)
       <==> |entries| == |lines| && forall i :: 0 <= i < |lines| ==> RowOf(lines[i], entries[i])
  {
    hide ParseLine, RowOf;
    if lines != [] {
      if ParseLine(lines[0]).Some? { ParseLineExact(lines[0], ParseLine(lines[0]).value); }
      if entries != [] {
        ParseLineExact(lines[0], entries[0]);
        ParseRowsExact(lines[1..], entries[1..]);
        assert entries == [entries[0]] + entries[1..];
      }
    }
  }

  /** Main result: a text reads as these entries exactly when its lines are the header and one row for each of them. */
  lemma IndexExact(text: string, entries: seq<Entry>)
    ensures ParseIndex(text) == Some(entries)
       <==> exists lines :: CutLines(text, lines) && |lines| == |entries| + 1 && lines[0] == HEADER
                            && forall i :: 0 <= i < |entries| ==> RowOf(lines[i + 1], entries[i])
  {
    hide RowOf, HEADER, CutLines, SplitLines, ParseRows;
    var lines := SplitLines(text);
    SplitLinesExact(text, lines);
    if lines != [] { ParseRowsExact(lines[1..], entries); }
    if ParseIndex(text) == Some(entries) {
      assert forall i :: 0 <= i < |entries| ==> lines[1..][i] == lines[i + 1];
    }
    forall other | CutLines(text, other) ensures other == lines { SplitLinesExact(text, other); }
    if CutLines(text, lines) && |lines| == |entries| + 1 && lines[0] == HEADER
        && forall i :: 0 <= i < |entries| ==> RowOf(lines[i + 1], entries[i])
    {
      assert forall i :: 0 <= i < |entries| ==> lines[1..][i] == lines[i + 1];
    }
  }

  // ---------------------------------------------------------------- when the index survives

  lemma LineStep(a: string, rest: string)
    requires forall k :: 0 <= k < |a| ==> !IsBoundary(a[k])
    ensures SplitLines(a + ['\n'] + rest) == [a] + SplitLines(rest)
  {
    var s := a + ['\n'] + rest;
    assert s[|a|] == '\n';
    assert forall k :: 0 <= k < |a| ==> s[k] == a[k];
    BoundaryIs(s, |a|);
    assert s[..|a|] == a && s[|a| + 1..] == rest;
  }

  lemma BoundaryIs(s: string, i: nat)
    requires i < |s| && IsBoundary(s[i]) && forall k :: 0 <= k < i ==> !IsBoundary(s[k])
    ensures BoundaryAt(s) == i
  {
  }

  lemma RowText(e: Entry)
    requires WellFormed(e)
    ensures ParseLine(Join(Fields(e), '\t')) == Some(e)
  {
    var f := Fields(e);
    assert forall x :: x in f ==> '\t' !in x;
    SplitJoin(f, '\t');
    var g := Split(Join(f, '\t'), '\t');
    assert g == f;
    assert |g| == 5 && g[0] == e.source && g[1] == e.archive && g[2] == e.offset && g[3] == e.length && g[4] == e.sha;
  }

  lemma RowShape(e: Entry)
    ensures Join(Fields(e), '\t')
         == e.source + ['\t'] + (e.archive + ['\t'] + (e.offset + ['\t'] + (e.length + ['\t'] + e.sha)))
  {
    var f: seq<string> := Fields(e);
    var f1: seq<string>, f2: seq<string> := [e.archive, e.offset, e.length, e.sha], [e.offset, e.length, e.sha];
    var f3: seq<string>, f4: seq<string> := [e.length, e.sha], [e.sha];
    assert f[1..] == f1 && f1[1..] == f2 && f2[1..] == f3 && f3[1..] == f4;
    assert Join(f4, '\t') == e.sha;
    assert Join(f3, '\t') == e.length + ['\t'] + Join(f4, '\t');
    assert Join(f2, '\t') == e.offset + ['\t'] + Join(f3, '\t');
    assert Join(f1, '\t') == e.archive + ['\t'] + Join(f2, '\t');
    assert Join(f, '\t') == e.source + ['\t'] + Join(f1, '\t');
  }

  lemma RowIsOneLine(e: Entry)
    requires WellFormed(e) && Clean(e.source)
    ensures var row := Join(Fields(e), '\t'); forall k :: 0 <= k < |row| ==> !IsBoundary(row[k])
  {
    RowShape(e);
    NoBoundaryInTab(e.length, e.sha);
    NoBoundaryInTab(e.offset, e.length + ['\t'] + e.sha);
    NoBoundaryInTab(e.archive, e.offset + ['\t'] + (e.length + ['\t'] + e.sha));
    NoBoundaryInTab(e.source, e.archive + ['\t'] + (e.offset + ['\t'] + (e.length + ['\t'] + e.sha)));
  }

  lemma NoBoundaryInTab(a: string, b: string)
    requires (forall k :: 0 <= k < |a| ==> !IsBoundary(a[k])) && forall k :: 0 <= k < |b| ==> !IsBoundary(b[k])
    ensures var s := a + ['\t'] + b; forall k :: 0 <= k < |s| ==> !IsBoundary(s[k])
  {
  }

  /** A source with a line boundary splits its row: the first piece has no tab and is rejected. */
  lemma BrokenRow(e: Entry, rest: string)
    requires WellFormed(e) && !Clean(e.source)
    ensures ParseRows(SplitLines(Join(Fields(e), '\t') + ['\n'] + rest)) == None
  {
    RowShape(e);
    var tail := e.archive + ['\t'] + (e.offset + ['\t'] + (e.length + ['\t'] + e.sha));
    var s := Join(Fields(e), '\t') + ['\n'] + rest;
    var k :| 0 <= k < |e.source| && IsBoundary(e.source[k]);
    assert s == e.source + (['\t'] + tail + ['\n'] + rest);
    assert s[k] == e.source[k];
    var i := BoundaryAt(s);
    assert i <= k;
    var piece := s[..i];
    assert piece == e.source[..i];
    assert s[i] == e.source[i] && s[i] != '\r';
    NoTab(piece);
    assert SplitLines(s)[0] == piece;
  }

  lemma NoTab(piece: string)
    requires '\t' !in piece
    ensures ParseLine(piece) == None
  {
    SplitStep(piece, '\t', []);
  }

  lemma {:induction false} RowsSurvive(entries: seq<Entry>)
    requires forall e :: e in entries ==> WellFormed(e)
    ensures (forall e :: e in entries ==> Clean(e.source))
            ==> ParseRows(SplitLines(PrintRows(entries))) == Some(entries)
    ensures (exists e :: e in entries && !Clean(e.source)) ==> ParseRows(SplitLines(PrintRows(entries))) == None
  {
    hide ParseLine, Fields, WellFormed, Clean;
    if entries != [] {
      var e, rest := entries[0], PrintRows(entries[1..]);
      var row := Join(Fields(e), '\t');
      assert e in entries;
      assert forall x :: x in entries ==> x == e || x in entries[1..];
      RowsSurvive(entries[1..]);
      if Clean(e.source) {
        RowIsOneLine(e);
        RowText(e);
        LineStep(row, rest);
        assert ([row] + SplitLines(rest))[1..] == SplitLines(rest);
        assert [e] + entries[1..] == entries;
      } else {
        BrokenRow(e, rest);
      }
    }
  }

  lemma HeaderIsOneLine()
    ensures forall k :: 0 <= k < |HEADER| ==> !IsBoundary(HEADER[k])
  {
  }

  /**
    Main result. Reading back a printed index gives its entries if and only if no source contains a
    line boundary other than the two the writer refuses; otherwise the whole index is rejected.
   */
  lemma IndexRoundTrip(entries: seq<Entry>)
    requires forall e :: e in entries ==> WellFormed(e)
    ensures ParseIndex(PrintIndex(entries)) == Some(entries) <==> forall e :: e in entries ==> Clean(e.source)
    ensures (exists e :: e in entries && !Clean(e.source)) ==> ParseIndex(PrintIndex(entries)) == None
  {
    hide ParseRows, PrintRows, HEADER, WellFormed, Clean;
    HeaderIsOneLine();
    LineStep(HEADER, PrintRows(entries));
    var lines := SplitLines(PrintIndex(entries));
    assert lines == [HEADER] + SplitLines(PrintRows(entries));
    assert lines[1..] == SplitLines(PrintRows(entries));
    RowsSurvive(entries);
  }

  /** A form feed in a source path passes the writer's check and makes the index unreadable. */
  lemma FormFeedBreaksIndex()
    ensures exists e :: WellFormed(e) && ParseIndex(PrintIndex([e])) == None
  {
    hide ParseIndex, PrintIndex;
    var e := Entry(['a', '\U{0C}', 'b'], "group-1.log", "0", "0", "00");
    assert e.source[1] == '\U{0C}';
    assert !Clean(e.source);
    assert WellFormed(e);
    assert e in [e];
    IndexRoundTrip([e]);
  }

  // ---------------------------------------------------------------- numbers in the index

  /** str(n) */
  function Decimal(n: nat): (s: string)
    ensures AllDigits(s)
  {
    if n < 10 then ['0' + n as char] else Decimal(n / 10) + ['0' + (n % 10) as char]
  }

  /** int(text) */
  function Number(s: string): nat
    requires AllDigits(s)
  {
    var last := (s[|s| - 1] - '0') as nat;
    if |s| == 1 then last else 10 * Number(s[..|s| - 1]) + last
  }

  lemma {:induction false} DecimalNumber(n: nat)
    ensures Number(Decimal(n)) == n
  {
    if n >= 10 {
      DecimalNumber(n / 10);
      var s := Decimal(n);
      assert s[..|s| - 1] == Decimal(n / 10);
    }
  }
}
