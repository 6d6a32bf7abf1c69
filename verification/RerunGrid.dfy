/** Validation of an exported rerun plan (`rerun_plan.main`): the grid of stages and groups. */
module RerunGrid {
  import opened Wrappers
  import opened Ordering

  datatype Operation = Rccl | Deepep | ByteFlux | OtherOperation

  /** One plan entry with its blank members dropped; `order` is its group order as it is printed. */
  datatype Entry = Entry(group: string, order: string, members: seq<string>, isStage: bool, stage: string,
                         item: string, iteration: string)

  datatype Key = Key(stage: string, item: string, iteration: string)

  datatype Grid = Grid(groups: map<string, seq<string>>, orders: map<string, string>, stages: seq<Key>)

  /** Why no plan is emitted. */
  datatype Reject = EmptyPlan | BadEntry | Incomplete | ContextClash

  function KeyOf(e: Entry): Key {
    Key(e.stage, e.item, e.iteration)
  }

  predicate GpuOperation(op: Operation) {
    op == Rccl || op == Deepep
  }

  predicate IsDigit(c: char) {
    '0' <= c <= '9'
  }

  predicate IsAlphanumeric(c: char) {
    IsDigit(c) || 'A' <= c <= 'Z' || 'a' <= c <= 'z'
  }

  /** `group-[0-9]+` */
  predicate GroupName(s: string) {
    "group-" <= s && |s| > |"group-"| && forall i :: |"group-"| <= i < |s| ==> IsDigit(s[i])
  }

  /** `[A-Za-z0-9][A-Za-z0-9_.-]*` */
  predicate MemberName(s: string) {
    s != "" && IsAlphanumeric(s[0])
    && forall i :: 0 <= i < |s| ==> IsAlphanumeric(s[i]) || s[i] == '_' || s[i] == '.' || s[i] == '-'
  }

  predicate GpuNames(e: Entry) {
    GroupName(e.group) && forall i :: 0 <= i < |e.members| ==> MemberName(e.members[i])
  }

  predicate SingleRun(op: Operation) {
    op == Deepep || op == ByteFlux
  }

  // ---------------------------------------------------------------- the spelling that GPU operations demand

  const DIGITS := "0123456789"
  const UPPER := "ABCDEFGHIJKLMNOPQRSTUVWXYZ"
  const LOWER := "abcdefghijklmnopqrstuvwxyz"

  ghost predicate AllIn(s: string, chars: string) {
    forall i :: 0 <= i < |s| ==> s[i] in chars
  }

  /** `group-` and a number. */
  ghost predicate GroupSpelled(s: string) {
    exists number :: s == "group-" + number && number != "" && AllIn(number, DIGITS)
  }

  /** A letter or digit, and then letters, digits, underscores, dots and dashes. */
  ghost predicate MemberSpelled(s: string) {
    exists first, rest :: s == first + rest && |first| == 1 && AllIn(first, DIGITS + UPPER + LOWER)
                          && AllIn(rest, DIGITS + UPPER + LOWER + "_.-")
  }

  lemma DigitSpelled(c: char)
    ensures IsDigit(c) <==> c in DIGITS
  {
    if IsDigit(c) {
      assert DIGITS[c as int - '0' as int] == c;
    }
  }

  lemma UpperSpelled(c: char)
    ensures 'A' <= c <= 'Z' <==> c in UPPER
  {
    if 'A' <= c <= 'Z' {
      assert UPPER[c as int - 'A' as int] == c;
    }
  }

  lemma LowerSpelled(c: char)
    ensures 'a' <= c <= 'z' <==> c in LOWER
  {
    if 'a' <= c <= 'z' {
      assert LOWER[c as int - 'a' as int] == c;
    }
  }

  lemma CharSpelled(c: char)
    ensures IsAlphanumeric(c) <==> c in DIGITS + UPPER + LOWER
    ensures IsAlphanumeric(c) || c == '_' || c == '.' || c == '-' <==> c in DIGITS + UPPER + LOWER + "_.-"
  {
    hide IsDigit, DIGITS, UPPER, LOWER;
    DigitSpelled(c);
    UpperSpelled(c);
    LowerSpelled(c);
  }

  /** Main result: the patterns admit exactly the names that are spelled so. */
  lemma GroupNameExact(s: string)
    ensures GroupName(s) <==> GroupSpelled(s)
  {
    hide IsDigit, DIGITS;
    forall c ensures IsDigit(c) <==> c in DIGITS { DigitSpelled(c); }
    if GroupName(s) {
      var number := s[6..];
      assert s == "group-" + number;
    }
    if GroupSpelled(s) {
      var number :| s == "group-" + number && number != "" && AllIn(number, DIGITS);
      assert forall i :: 6 <= i < |s| ==> s[i] == number[i - 6];
    }
  }

  lemma FirstChars(s: string)
    ensures AllIn(s, DIGITS + UPPER + LOWER) <==> forall i :: 0 <= i < |s| ==> IsAlphanumeric(s[i])
  {
    forall i | 0 <= i < |s| ensures IsAlphanumeric(s[i]) <==> s[i] in DIGITS + UPPER + LOWER { CharSpelled(s[i]); }
    hide IsAlphanumeric, DIGITS, UPPER, LOWER;
  }

  lemma LaterChars(s: string)
    ensures AllIn(s, DIGITS + UPPER + LOWER + "_.-")
       <==> forall i :: 0 <= i < |s| ==> IsAlphanumeric(s[i]) || s[i] == '_' || s[i] == '.' || s[i] == '-'
  {
    forall i | 0 <= i < |s|
      ensures IsAlphanumeric(s[i]) || s[i] == '_' || s[i] == '.' || s[i] == '-'
         <==> s[i] in DIGITS + UPPER + LOWER + "_.-"
    {
      CharSpelled(s[i]);
    }
    hide IsAlphanumeric, DIGITS, UPPER, LOWER;
  }

  lemma MemberNameExact(s: string)
    ensures MemberName(s) <==> MemberSpelled(s)
  {
    hide IsAlphanumeric, AllIn, DIGITS, UPPER, LOWER;
    if MemberName(s) {
      assert s == s[..1] + s[1..];
      FirstChars(s[..1]);
      LaterChars(s[1..]);
    }
    if MemberSpelled(s) {
      var first, rest :| s == first + rest && |first| == 1 && AllIn(first, DIGITS + UPPER + LOWER)
                         && AllIn(rest, DIGITS + UPPER + LOWER + "_.-");
      FirstChars(first);
      LaterChars(rest);
      assert s[0] == first[0] && forall i :: 1 <= i < |s| ==> s[i] == rest[i - 1];
    }
  }

  ghost predicate GpuSpelled(e: Entry) {
    GroupSpelled(e.group) && forall m :: m in e.members ==> MemberSpelled(m)
  }

  lemma GpuNamesExact(e: Entry)
    ensures GpuNames(e) <==> GpuSpelled(e)
  {
    hide GroupName, MemberName, GroupSpelled, MemberSpelled;
    GroupNameExact(e.group);
    forall m ensures MemberName(m) <==> MemberSpelled(m) { MemberNameExact(m); }
    if GpuNames(e) {
      forall m | m in e.members ensures MemberSpelled(m) { var i :| 0 <= i < |e.members| && e.members[i] == m; }
    }
  }

  // ---------------------------------------------------------------- what makes a plan acceptable

  ghost predicate GoodEntry(op: Operation, e: Entry) {
    && e.group != "" && e.members != []
    && (op == Rccl || op == Deepep ==> GpuSpelled(e) && Distinct(e.members))
  }

  /** Two entries agree on a shared group's members and a shared stage's item, and never repeat a cell. */
  ghost predicate Compatible(op: Operation, a: Entry, b: Entry) {
    && (a.group == b.group ==> a.members == b.members)
    && (a.isStage && b.isStage ==>
          && (a.stage == b.stage ==> KeyOf(a) == KeyOf(b) && a.group != b.group)
          && (op == Deepep || op == ByteFlux ==> !(a.group == b.group && a.item == b.item)))
  }

  ghost predicate CellExists(entries: seq<Entry>, key: Key, group: string) {
    exists e :: e in entries && e.isStage && KeyOf(e) == key && e.group == group
  }

  ghost predicate Acceptable(op: Operation, entries: seq<Entry>, context: seq<string>) {
    && entries != [] && (forall e :: e in entries ==> GoodEntry(op, e))
    && (forall i, j :: 0 <= i < j < |entries| ==> Compatible(op, entries[i], entries[j]))
    && (forall s, e :: s in entries && s.isStage && e in entries ==> CellExists(entries, KeyOf(s), e.group))
    && (forall n, e :: n in context && e in entries ==> n !in e.members)
  }

  ghost predicate HasGroup(entries: seq<Entry>, group: string) {
    exists e :: e in entries && e.group == group
  }

  ghost predicate HasKey(entries: seq<Entry>, key: Key) {
    exists e :: e in entries && e.isStage && KeyOf(e) == key
  }

  ghost predicate HasStage(entries: seq<Entry>, stage: string) {
    exists e :: e in entries && e.isStage && e.stage == stage
  }

  ghost predicate HasCell(entries: seq<Entry>, cell: (string, string)) {
    exists e :: e in entries && e.isStage && (e.stage, e.group) == cell
  }

  ghost predicate HasRun(entries: seq<Entry>, run: (string, string)) {
    exists e :: e in entries && e.isStage && (e.group, e.item) == run
  }

  /** The group order of the first entry of a group. */
  function FirstOrder(entries: seq<Entry>, group: string): string {
    if entries == [] then ""
    else if entries[0].group == group then entries[0].order
    else FirstOrder(entries[1..], group)
  }

  lemma {:induction false} FirstOrderMore(entries: seq<Entry>, e: Entry, group: string)
    ensures FirstOrder(entries + [e], group) ==
            if HasGroup(entries, group) then FirstOrder(entries, group) else if e.group == group then e.order else ""
  {
    hide HasGroup;
    if entries == [] {
      assert [] + [e] == [e] && [e][1..] == [];
      assert !HasGroup(entries, group) by { NoGroup(group); }
    } else {
      assert (entries + [e])[1..] == entries[1..] + [e];
      FirstOrderMore(entries[1..], e, group);
      GroupStep(entries, group);
    }
  }

  lemma NoGroup(group: string)
    ensures !HasGroup([], group)
  {
  }

  lemma GroupStep(entries: seq<Entry>, group: string)
    requires entries != []
    ensures HasGroup(entries, group) <==> entries[0].group == group || HasGroup(entries[1..], group)
  {
    assert forall e :: e in entries <==> e == entries[0] || e in entries[1..];
    if HasGroup(entries[1..], group) {
      var e :| e in entries[1..] && e.group == group;
      assert e in entries;
    }
    assert entries[0] in entries;
  }

  ghost predicate GroupsOf(groups: map<string, seq<string>>, orders: map<string, string>, entries: seq<Entry>) {
    && (forall n :: n in groups <==> HasGroup(entries, n))
    && (forall e :: e in entries ==> e.group in groups && groups[e.group] == e.members)
    && (forall n :: n in orders <==> n in groups)
    && (forall n :: n in groups ==> orders[n] == FirstOrder(entries, n))
  }

  /** Position of the first stage entry with this key, or |entries|. */
  function FirstAt(entries: seq<Entry>, key: Key): nat {
    if entries == [] || (entries[0].isStage && KeyOf(entries[0]) == key) then 0 else 1 + FirstAt(entries[1..], key)
  }

  lemma {:induction false} FirstAtMore(entries: seq<Entry>, e: Entry, key: Key)
    ensures FirstAt(entries, key) < |entries| <==> HasKey(entries, key)
    ensures FirstAt(entries, key) <= |entries|
    ensures HasKey(entries, key) ==> FirstAt(entries + [e], key) == FirstAt(entries, key)
    ensures !HasKey(entries, key) && e.isStage && KeyOf(e) == key ==> FirstAt(entries + [e], key) == |entries|
  {
    hide HasKey;
    if entries == [] {
      assert [] + [e] == [e];
      assert !HasKey(entries, key) by { NoKey(key); }
    } else {
      assert (entries + [e])[1..] == entries[1..] + [e];
      FirstAtMore(entries[1..], e, key);
      KeyStep(entries, key);
    }
  }

  lemma NoKey(key: Key)
    ensures !HasKey([], key)
  {
  }

  lemma KeyStep(entries: seq<Entry>, key: Key)
    requires entries != []
    ensures HasKey(entries, key) <==> (entries[0].isStage && KeyOf(entries[0]) == key) || HasKey(entries[1..], key)
  {
    assert forall e :: e in entries <==> e == entries[0] || e in entries[1..];
    if HasKey(entries[1..], key) {
      var e :| e in entries[1..] && e.isStage && KeyOf(e) == key;
      assert e in entries;
    }
    assert entries[0] in entries;
  }

  /** The stages of the entries, each once, in the order of their first entries. */
  ghost predicate StagesOf(stages: seq<Key>, entries: seq<Entry>) {
    && (forall k :: k in stages <==> HasKey(entries, k)) && Distinct(stages)
    && forall i, j :: 0 <= i < j < |stages| ==> FirstAt(entries, stages[i]) < FirstAt(entries, stages[j])
  }

  /** The emitted groups and stages are exactly those of the entries. */
  ghost predicate GridOf(g: Grid, entries: seq<Entry>) {
    GroupsOf(g.groups, g.orders, entries) && StagesOf(g.stages, entries)
  }

  // ---------------------------------------------------------------- the loop

  /** The dictionaries and sets after some entries. */
  datatype Seen = Seen(groups: map<string, seq<string>>, orders: map<string, string>, stages: seq<Key>,
                       identity: map<string, Key>, cells: set<(string, string)>, runs: set<(string, string)>)

  ghost predicate IdentityOf(identity: map<string, Key>, entries: seq<Entry>) {
    && (forall x :: x in identity <==> HasStage(entries, x))
    && (forall e :: e in entries && e.isStage ==> e.stage in identity && identity[e.stage] == KeyOf(e))
  }

  ghost predicate CellsSeen(cells: set<(string, string)>, runs: set<(string, string)>, entries: seq<Entry>) {
    (forall c :: c in cells <==> HasCell(entries, c)) && forall c :: c in runs <==> HasRun(entries, c)
  }

  ghost predicate SeenIs(s: Seen, entries: seq<Entry>) {
    && GroupsOf(s.groups, s.orders, entries) && StagesOf(s.stages, entries)
    && IdentityOf(s.identity, entries) && CellsSeen(s.cells, s.runs, entries)
  }

  ghost predicate FitsAll(op: Operation, entries: seq<Entry>, e: Entry) {
    GoodEntry(op, e) && forall d :: d in entries ==> Compatible(op, d, e)
  }

  predicate OtherMembers(s: Seen, e: Entry) {
    e.group in s.groups && s.groups[e.group] != e.members
  }

  predicate OtherIdentity(s: Seen, e: Entry) {
    e.stage in s.identity && s.identity[e.stage] != KeyOf(e)
  }

  lemma MembersClash(s: Seen, entries: seq<Entry>, e: Entry)
    requires SeenIs(s, entries)
    ensures OtherMembers(s, e) <==> exists d :: d in entries && d.group == e.group && d.members != e.members
  {
    hide StagesOf, IdentityOf, CellsSeen, FirstOrder;
    if OtherMembers(s, e) {
      assert HasGroup(entries, e.group);
      var d :| d in entries && d.group == e.group;
    }
  }

  lemma IdentityClash(s: Seen, entries: seq<Entry>, e: Entry)
    requires SeenIs(s, entries)
    ensures OtherIdentity(s, e)
       <==> exists d :: d in entries && d.isStage && d.stage == e.stage && KeyOf(d) != KeyOf(e)
  {
    hide StagesOf, GroupsOf, CellsSeen;
    if OtherIdentity(s, e) {
      assert HasStage(entries, e.stage);
      var d :| d in entries && d.isStage && d.stage == e.stage;
    }
  }

  lemma CellClash(s: Seen, entries: seq<Entry>, e: Entry)
    requires SeenIs(s, entries)
    ensures (e.stage, e.group) in s.cells
       <==> exists d :: d in entries && d.isStage && d.stage == e.stage && d.group == e.group
    ensures (e.group, e.item) in s.runs
       <==> exists d :: d in entries && d.isStage && d.group == e.group && d.item == e.item
  {
    hide StagesOf, GroupsOf, IdentityOf;
    if HasCell(entries, (e.stage, e.group)) {
      var d :| d in entries && d.isStage && (d.stage, d.group) == (e.stage, e.group);
    }
    if HasRun(entries, (e.group, e.item)) {
      var d :| d in entries && d.isStage && (d.group, d.item) == (e.group, e.item);
    }
    if d :| d in entries && d.isStage && d.stage == e.stage && d.group == e.group {
      assert (d.stage, d.group) == (e.stage, e.group);
    }
    if d :| d in entries && d.isStage && d.group == e.group && d.item == e.item {
      assert (d.group, d.item) == (e.group, e.item);
    }
  }

  /** The checks of one round against what is seen decide compatibility with every earlier entry. */
  lemma ChecksDecide(op: Operation, s: Seen, entries: seq<Entry>, e: Entry)
    requires SeenIs(s, entries) && GoodEntry(op, e)
    ensures FitsAll(op, entries, e) <==>
              !OtherMembers(s, e)
              && (e.isStage ==> !OtherIdentity(s, e) && (e.stage, e.group) !in s.cells
                                && !(SingleRun(op) && (e.group, e.item) in s.runs))
  {
    hide SeenIs, GoodEntry, OtherMembers, OtherIdentity;
    MembersClash(s, entries, e);
    IdentityClash(s, entries, e);
    CellClash(s, entries, e);
  }

  /** One round of the loop: whether the entry fits what was seen, and what is seen afterwards. */
  method Take(op: Operation, s: Seen, e: Entry, ghost entries: seq<Entry>) returns (ok: bool, next: Seen)
    requires SeenIs(s, entries)
    ensures ok <==> FitsAll(op, entries, e)
    ensures ok ==> SeenIs(next, entries + [e])
  {
    GpuNamesExact(e);
    hide GpuNames, GpuSpelled, SeenIs, Compatible;
    next := s;
    if e.group == "" || e.members == [] {
      return false, s;
    }
    if GpuOperation(op) && (!GpuNames(e) || exists i, j :: 0 <= i < j < |e.members| && e.members[i] == e.members[j]) {
      return false, s;
    }
    ChecksDecide(op, s, entries, e);
    hide FitsAll, GoodEntry;
    if OtherMembers(s, e) {
      return false, s;
    }
    if e.isStage {
      if OtherIdentity(s, e) {
        return false, s;
      }
      if (e.stage, e.group) in s.cells {
        return false, s;
      }
      if SingleRun(op) && (e.group, e.item) in s.runs {
        return false, s;
      }
    }
    ok := true;
    next := Record(s, e);
    Recorded(op, s, entries, e);
  }

  /** `setdefault` for the group, and the stage bookkeeping. */
  function Record(s: Seen, e: Entry): Seen {
    var t := if e.group in s.groups then s
             else s.(groups := s.groups[e.group := e.members], orders := s.orders[e.group := e.order]);
    if !e.isStage then t
    else t.(stages := if KeyOf(e) in t.stages then t.stages else t.stages + [KeyOf(e)],
            identity := t.identity[e.stage := KeyOf(e)], cells := t.cells + {(e.stage, e.group)},
            runs := t.runs + {(e.group, e.item)})
  }

  /** What a longer list of entries has. */
  lemma HasMore(entries: seq<Entry>, e: Entry)
    ensures forall n :: HasGroup(entries + [e], n) <==> HasGroup(entries, n) || e.group == n
    ensures forall k :: HasKey(entries + [e], k) <==> HasKey(entries, k) || (e.isStage && KeyOf(e) == k)
    ensures forall x :: HasStage(entries + [e], x) <==> HasStage(entries, x) || (e.isStage && e.stage == x)
  {
    var all := entries + [e];
    assert e in all && forall d :: d in all <==> d in entries || d == e;
    forall n | HasGroup(entries, n) ensures HasGroup(all, n) { var d :| d in entries && d.group == n; assert d in all; }
    forall k | HasKey(entries, k) ensures HasKey(all, k) { var d :| d in entries && d.isStage
        && KeyOf(d) == k; assert d in all; }
    forall x | HasStage(entries, x)
        ensures HasStage(all, x) { var d :| d in entries && d.isStage && d.stage == x; assert d in all; }
  }

  lemma HasMoreCells(entries: seq<Entry>, e: Entry)
    ensures forall c :: HasCell(entries + [e], c) <==> HasCell(entries, c) || (e.isStage && (e.stage, e.group) == c)
    ensures forall c :: HasRun(entries + [e], c) <==> HasRun(entries, c) || (e.isStage && (e.group, e.item) == c)
  {
    var all := entries + [e];
    assert e in all && forall d :: d in all <==> d in entries || d == e;
    forall c | HasCell(entries, c) ensures HasCell(all, c) { var d :| d in entries && d.isStage
        && (d.stage, d.group) == c; assert d in all; }
    forall c | HasRun(entries, c) ensures HasRun(all, c) { var d :| d in entries && d.isStage
        && (d.group, d.item) == c; assert d in all; }
  }

  lemma Recorded(op: Operation, s: Seen, entries: seq<Entry>, e: Entry)
    requires SeenIs(s, entries) && FitsAll(op, entries, e)
    ensures SeenIs(Record(s, e), entries + [e])
  {
    hide GroupsOf, StagesOf, IdentityOf, CellsSeen, GoodEntry;
    if e.group in s.groups { SameMembers(op, s, entries, e); }
    GroupRecorded(s, entries, e);
    StageRecorded(s, entries, e);
    if e.isStage { SameIdentity(op, s, entries, e); }
    IdentityRecorded(s, entries, e);
    CellRecorded(s, entries, e);
  }

  lemma SameMembers(op: Operation, s: Seen, entries: seq<Entry>, e: Entry)
    requires SeenIs(s, entries) && FitsAll(op, entries, e) && e.group in s.groups
    ensures s.groups[e.group] == e.members
  {
    hide StagesOf, IdentityOf, CellsSeen, GoodEntry, FirstOrder;
    var d :| d in entries && d.group == e.group;
  }

  lemma SameIdentity(op: Operation, s: Seen, entries: seq<Entry>, e: Entry)
    requires SeenIs(s, entries) && FitsAll(op, entries, e) && e.isStage
    ensures forall d :: d in entries && d.isStage && d.stage == e.stage ==> KeyOf(d) == KeyOf(e)
  {
    hide SeenIs, GoodEntry;
  }

  lemma GroupRecorded(s: Seen, entries: seq<Entry>, e: Entry)
    requires GroupsOf(s.groups, s.orders, entries) && (e.group in s.groups ==> s.groups[e.group] == e.members)
    ensures GroupsOf(Record(s, e).groups, Record(s, e).orders, entries + [e])
  {
    var t := Record(s, e);
    RecordedGroup(s, e);
    hide HasGroup, FirstOrder, Record;
    HasMore(entries, e);
    assert forall n :: n in t.groups <==> HasGroup(entries + [e], n);
    forall d | d in entries + [e] ensures d.group in t.groups && t.groups[d.group] == d.members {
      if d !in entries { assert d == e; }
    }
    forall n | n in t.groups ensures t.orders[n] == FirstOrder(entries + [e], n) { FirstOrderMore(entries, e, n); }
  }

  lemma RecordedGroup(s: Seen, e: Entry)
    ensures Record(s, e).groups == if e.group in s.groups then s.groups else s.groups[e.group := e.members]
    ensures Record(s, e).orders == if e.group in s.groups then s.orders else s.orders[e.group := e.order]
  {
  }

  lemma StageRecorded(s: Seen, entries: seq<Entry>, e: Entry)
    requires StagesOf(s.stages, entries)
    ensures StagesOf(Record(s, e).stages, entries + [e])
  {
    RecordedStages(s, e);
    var next := Record(s, e).stages;
    hide HasKey, FirstAt, Record;
    HasMore(entries, e);
    forall i, j | 0 <= i < j < |next| ensures FirstAt(entries + [e], next[i]) < FirstAt(entries + [e], next[j]) {
      assert s.stages[i] in s.stages;
      FirstAtMore(entries, e, next[i]);
      FirstAtMore(entries, e, next[j]);
      if j < |s.stages| { assert s.stages[j] in s.stages; }
    }
  }

  lemma RecordedStages(s: Seen, e: Entry)
    ensures Record(s, e).stages == if e.isStage && KeyOf(e) !in s.stages then s.stages + [KeyOf(e)] else s.stages
  {
  }

  lemma IdentityRecorded(s: Seen, entries: seq<Entry>, e: Entry)
    requires IdentityOf(s.identity, entries)
    requires e.isStage ==> forall d :: d in entries && d.isStage && d.stage == e.stage ==> KeyOf(d) == KeyOf(e)
    ensures IdentityOf(Record(s, e).identity, entries + [e])
  {
    hide HasStage;
    HasMore(entries, e);
  }

  lemma CellRecorded(s: Seen, entries: seq<Entry>, e: Entry)
    requires CellsSeen(s.cells, s.runs, entries)
    ensures CellsSeen(Record(s, e).cells, Record(s, e).runs, entries + [e])
  {
    hide HasCell, HasRun;
    HasMoreCells(entries, e);
  }

  /**
    The whole validation. Main result: a plan is emitted iff it is acceptable, and then as exactly its groups
    and stages.
   */
  method Validate(op: Operation, entries: seq<Entry>, context: seq<string>) returns (r: Result<Grid, Reject>)
    ensures r.Ok? <==> Acceptable(op, entries, context)
    ensures r.Ok? ==> GridOf(r.value, entries)
  {
    hide GoodEntry, Compatible, SeenIs, GridOf;
    if entries == [] {
      return Err(EmptyPlan);
    }
    var seen := Seen(map[], map[], [], map[], {}, {});
    NothingSeen(seen);
    assert entries[..0] == [];
    for i := 0 to |entries|
      invariant SeenIs(seen, entries[..i])
      invariant forall e :: e in entries[..i] ==> GoodEntry(op, e)
      invariant forall j, k :: 0 <= j < k < i ==> Compatible(op, entries[j], entries[k])
    {
      assert entries[..i + 1] == entries[..i] + [entries[i]];
      var ok, next := Take(op, seen, entries[i], entries[..i]);
      if !ok {
        Misfit(op, entries, context, i);
        return Err(BadEntry);
      }
      seen := next;
    }
    assert entries[..|entries|] == entries;
    var full := CheckGrid(seen, entries);
    if !full {
      return Err(Incomplete);
    }
    var clash := CheckContext(seen, entries, context);
    if clash {
      return Err(ContextClash);
    }
    SeenGrid(seen, entries);
    r := Ok(Grid(seen.groups, seen.orders, seen.stages));
  }

  lemma NothingSeen(s: Seen)
    requires s == Seen(map[], map[], [], map[], {}, {})
    ensures SeenIs(s, [])
  {
  }

  lemma SeenGrid(s: Seen, entries: seq<Entry>)
    requires SeenIs(s, entries)
    ensures GridOf(Grid(s.groups, s.orders, s.stages), entries)
  {
  }

  lemma Misfit(op: Operation, entries: seq<Entry>, context: seq<string>, i: nat)
    requires i < |entries| && !FitsAll(op, entries[..i], entries[i])
    ensures !Acceptable(op, entries, context)
  {
    hide GoodEntry, Compatible;
    assert entries[i] in entries;
    if GoodEntry(op, entries[i]) {
      var d :| d in entries[..i] && !Compatible(op, d, entries[i]);
      var j :| 0 <= j < i && entries[j] == d;
    }
  }

  /** Every listed stage for every listed group. */
  method CheckGrid(s: Seen, ghost entries: seq<Entry>) returns (full: bool)
    requires SeenIs(s, entries)
    ensures full <==> forall a, e :: a in entries && a.isStage && e in entries ==>
              CellExists(entries, KeyOf(a), e.group)
  {
    hide HasGroup, HasStage, HasRun;
    full := forall k | k in s.stages :: forall g | g in s.groups :: (k.stage, g) in s.cells;
    if full {
      forall a, e | a in entries && a.isStage && e in entries ensures CellExists(entries, KeyOf(a), e.group) {
        KeyListed(s, entries, a);
        assert HasCell(entries, (a.stage, e.group));
        var d :| d in entries && d.isStage && (d.stage, d.group) == (a.stage, e.group);
        assert KeyOf(d) == s.identity[a.stage] == KeyOf(a);
      }
    } else {
      ghost var k, g :| k in s.stages && g in s.groups && (k.stage, g) !in s.cells;
      MissingCell(s, entries, k, g);
    }
  }

  lemma KeyListed(s: Seen, entries: seq<Entry>, a: Entry)
    requires SeenIs(s, entries) && a in entries && a.isStage
    ensures KeyOf(a) in s.stages
  {
    hide HasGroup, HasStage, HasRun, HasCell;
    assert HasKey(entries, KeyOf(a));
  }

  lemma MissingCell(s: Seen, entries: seq<Entry>, k: Key, g: string)
    requires SeenIs(s, entries) && k in s.stages && g in s.groups && (k.stage, g) !in s.cells
    ensures exists a, e :: a in entries && a.isStage && e in entries && !CellExists(entries, KeyOf(a), e.group)
  {
    hide HasStage, HasRun;
    assert HasKey(entries, k) && HasGroup(entries, g);
    var a :| a in entries && a.isStage && KeyOf(a) == k;
    var e :| e in entries && e.group == g;
    forall d | d in entries && d.isStage && KeyOf(d) == k ensures d.group != g {
      assert HasCell(entries, (d.stage, d.group));
    }
    assert !CellExists(entries, KeyOf(a), e.group);
  }

  method CheckContext(s: Seen, ghost entries: seq<Entry>, context: seq<string>) returns (clash: bool)
    requires SeenIs(s, entries)
    ensures clash <==> exists n, e :: n in context && e in entries && n in e.members
  {
    hide HasKey, HasStage, HasRun, HasCell;
    clash := exists n | n in context :: exists g | g in s.groups :: n in s.groups[g];
    if clash {
      ghost var n, g :| n in context && g in s.groups && n in s.groups[g];
      assert HasGroup(entries, g);
      ghost var e :| e in entries && e.group == g;
      assert n in e.members;
    }
  }

  // ---------------------------------------------------------------- what acceptance means

  /**
    Read off acceptance: in an accepted plan every emitted cell is exactly one stage entry, and every stage
    entry is an emitted cell.
   */
  lemma GridIsBijection(op: Operation, entries: seq<Entry>, context: seq<string>, g: Grid)
    requires Acceptable(op, entries, context) && GridOf(g, entries)
    ensures forall k, n :: k in g.stages && n in g.groups ==> CellExists(entries, k, n)
    ensures forall i, j :: 0 <= i < j < |entries| && entries[i].isStage && entries[j].isStage ==>
              !(KeyOf(entries[i]) == KeyOf(entries[j]) && entries[i].group == entries[j].group)
    ensures forall i :: 0 <= i < |entries| && entries[i].isStage ==>
              KeyOf(entries[i]) in g.stages && entries[i].group in g.groups
  {
    hide CellExists, GoodEntry;
    forall k, n | k in g.stages && n in g.groups ensures CellExists(entries, k, n) {
      assert HasKey(entries, k) && HasGroup(entries, n);
      var a :| a in entries && a.isStage && KeyOf(a) == k;
      var e :| e in entries && e.group == n;
    }
    forall i, j | 0 <= i < j < |entries| && entries[i].isStage && entries[j].isStage
      ensures !(KeyOf(entries[i]) == KeyOf(entries[j]) && entries[i].group == entries[j].group)
    {
      assert Compatible(op, entries[i], entries[j]);
    }
    forall i | 0 <= i < |entries| && entries[i].isStage
        ensures KeyOf(entries[i]) in g.stages && entries[i].group in g.groups {
      assert entries[i] in entries;
      assert HasKey(entries, KeyOf(entries[i]));
    }
  }

  /** Two stage entries of one stage id agree. */
  lemma OneIdentity(op: Operation, entries: seq<Entry>, a: Entry, b: Entry)
    requires forall i, j :: 0 <= i < j < |entries| ==> Compatible(op, entries[i], entries[j])
    requires a in entries && b in entries && a.isStage && b.isStage && a.stage == b.stage
    ensures KeyOf(a) == KeyOf(b)
  {
    var i :| 0 <= i < |entries| && entries[i] == a;
    var j :| 0 <= j < |entries| && entries[j] == b;
    if i < j { assert Compatible(op, entries[i], entries[j]); }
    if j < i { assert Compatible(op, entries[j], entries[i]); }
  }

  /** Read off acceptance: an accepted plan gives each stage id one item and iteration, and no context node a group. */
  lemma GridIsConsistent(op: Operation, entries: seq<Entry>, context: seq<string>, g: Grid)
    requires Acceptable(op, entries, context) && GridOf(g, entries)
    ensures forall k, l :: k in g.stages && l in g.stages && k.stage == l.stage ==> k == l
    ensures forall n, m :: n in context && m in g.groups ==> n !in g.groups[m]
  {
    hide CellExists, GoodEntry, Compatible, FirstOrder;
    forall k, l | k in g.stages && l in g.stages && k.stage == l.stage ensures k == l {
      assert HasKey(entries, k) && HasKey(entries, l);
      var a :| a in entries && a.isStage && KeyOf(a) == k;
      var b :| b in entries && b.isStage && KeyOf(b) == l;
      OneIdentity(op, entries, a, b);
    }
    forall n, m | n in context && m in g.groups ensures n !in g.groups[m] {
      assert HasGroup(entries, m);
      var e :| e in entries && e.group == m;
    }
  }

  type Cell = (Key, string)

  /** The cells of the stage entries, in order. */
  function CellsOf(entries: seq<Entry>): seq<Cell> {
    if entries == [] then [] else
      (if entries[0].isStage then [(KeyOf(entries[0]), entries[0].group)] else []) + CellsOf(entries[1..])
  }

  lemma {:induction false} CellsAre(entries: seq<Entry>)
    ensures forall k, n :: (k, n) in CellsOf(entries) <==> CellExists(entries, k, n)
  {
    if entries != [] {
      CellsAre(entries[1..]);
      assert forall e :: e in entries <==> e == entries[0] || e in entries[1..];
    }
  }

  lemma {:induction false} CellsDistinct(op: Operation, entries: seq<Entry>)
    requires forall i, j :: 0 <= i < j < |entries| ==> Compatible(op, entries[i], entries[j])
    ensures Distinct(CellsOf(entries))
  {
    if entries != [] {
      var rest := entries[1..];
      forall i, j | 0 <= i < j < |rest| ensures Compatible(op, rest[i], rest[j]) {
        assert Compatible(op, entries[i + 1], entries[j + 1]);
      }
      CellsDistinct(op, rest);
      CellsAre(rest);
      if entries[0].isStage {
        forall e | e in rest && e.isStage ensures (KeyOf(e), e.group) != (KeyOf(entries[0]), entries[0].group) {
          var j :| 0 <= j < |rest| && rest[j] == e;
          assert Compatible(op, entries[0], entries[j + 1]);
        }
        assert (KeyOf(entries[0]), entries[0].group) !in CellsOf(rest);
      }
    }
  }

  function Row(key: Key, groups: seq<string>): (r: seq<Cell>)
    ensures |r| == |groups| && forall i :: 0 <= i < |groups| ==> r[i] == (key, groups[i])
  {
    seq(|groups|, i requires 0 <= i < |groups| => (key, groups[i]))
  }

  /** Every emitted stage for every emitted group. */
  function Rows(keys: seq<Key>, groups: seq<string>): (r: seq<Cell>)
    ensures |r| == |keys| * |groups|
  {
    if keys == [] then [] else Row(keys[0], groups) + Rows(keys[1..], groups)
  }

  lemma {:induction false} RowsAre(keys: seq<Key>, groups: seq<string>)
    requires Distinct(keys) && Distinct(groups)
    ensures Distinct(Rows(keys, groups))
    ensures forall c :: c in Rows(keys, groups) <==> c.0 in keys && c.1 in groups
  {
    hide Row;
    if keys != [] {
      RowsAre(keys[1..], groups);
      var row, rest := Row(keys[0], groups), Rows(keys[1..], groups);
      forall c ensures c in row <==> c.0 == keys[0] && c.1 in groups {
        if c.0 == keys[0] && c.1 in groups {
          var i :| 0 <= i < |groups| && groups[i] == c.1;
          assert row[i] == c;
        }
      }
      assert keys[0] !in keys[1..];
      assert forall x :: x in keys <==> x == keys[0] || x in keys[1..];
      DistinctAppend(row, rest);
    }
  }

  lemma InGrid(entries: seq<Entry>, g: Grid, k: Key, n: string)
    requires GridOf(g, entries) && CellExists(entries, k, n)
    ensures k in g.stages && n in g.groups
  {
    var e :| e in entries && e.isStage && KeyOf(e) == k && e.group == n;
    assert HasKey(entries, k);
  }

  /**
    Main result: the stage entries of an accepted plan are the emitted stages for the emitted groups, up to
    order, so there are exactly as many as stages times groups.
   */
  lemma GridIsExact(op: Operation, entries: seq<Entry>, context: seq<string>, g: Grid, groups: seq<string>)
    requires Acceptable(op, entries, context) && GridOf(g, entries)
    requires Distinct(groups) && forall n :: n in groups <==> n in g.groups
    ensures multiset(CellsOf(entries)) == multiset(Rows(g.stages, groups))
    ensures |CellsOf(entries)| == |g.stages| * |groups|
  {
    hide CellExists, GoodEntry, Compatible, CellsOf, Rows;
    CellsDistinct(op, entries);
    RowsAre(g.stages, groups);
    var cells, rows := CellsOf(entries), Rows(g.stages, groups);
    forall c: Cell ensures c in cells <==> c in rows {
      CellsAre(entries);
      var (k, n) := c;
      if c in cells {
        InGrid(entries, g, k, n);
      }
      if c in rows {
        GridIsBijection(op, entries, context, g);
      }
    }
    DistinctSameElements(cells, rows);
    assert |multiset(cells)| == |cells| && |multiset(rows)| == |rows|;
  }
}
