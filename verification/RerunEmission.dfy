/** What an accepted rerun plan means to the controller that reads its text back. */
module RerunEmission {
  import opened Wrappers
  import opened Bytes
  import opened Ordering
  import opened RerunGrid
  import opened RerunText

  /** What is printed besides groups and stages: settings before them, the context and a count behind them. */
  datatype Extras = Extras(settings: seq<(string, string)>, context: seq<string>, reason: string, unconfirmed: string)

  function SettingsText(settings: seq<(string, string)>): string {
    if settings == [] then ""
    else "ENV" + [TAB_CHAR] + (settings[0].0 + [TAB_CHAR] + settings[0].1) + [LINE_END] + SettingsText(settings[1..])
  }

  function ClosingText(x: Extras): string {
    "CTX" + [TAB_CHAR] + (Join(x.context, ',') + [TAB_CHAR] + x.reason) + [LINE_END]
    + ("UNCONFIRMED" + [TAB_CHAR] + x.unconfirmed + [LINE_END])
  }

  function GroupItems(g: Grid, groups: seq<string>): (items: seq<Item>)
    requires forall n :: n in groups ==> n in g.groups && n in g.orders
    ensures |items| == |groups|
    ensures forall i :: 0 <= i < |items| ==> items[i] == GroupRow(groups[i], g.orders[groups[i]], g.groups[groups[i]])
  {
    seq(|groups|, i requires 0 <= i < |groups| => GroupRow(groups[i], g.orders[groups[i]], g.groups[groups[i]]))
  }

  function StageItems(stages: seq<Key>): (items: seq<Item>)
    ensures |items| == |stages| && forall i :: 0 <= i < |items| ==> items[i] == StageRow(stages[i])
  {
    seq(|stages|, i requires 0 <= i < |stages| => StageRow(stages[i]))
  }

  /** The rows of a grid, its groups in the order of `ordered_groups`. */
  function Emission(g: Grid, groups: seq<string>): seq<Item>
    requires forall n :: n in groups ==> n in g.groups && n in g.orders
  {
    GroupItems(g, groups) + StageItems(g.stages)
  }

  function PlanText(g: Grid, groups: seq<string>, x: Extras): string
    requires forall n :: n in groups ==> n in g.groups && n in g.orders
  {
    SettingsText(x.settings) + (PrintItems(Emission(g, groups)) + ClosingText(x))
  }

  lemma {:induction false} PrintAppend(a: seq<Item>, b: seq<Item>)
    ensures PrintItems(a + b) == PrintItems(a) + PrintItems(b)
  {
    hide PrintItem;
    if a == [] {
      assert a + b == b;
    } else {
      TailOfAppend(a, b);
      PrintAppend(a[1..], b);
      Regroup(PrintItem(a[0]), PrintItems(a[1..]), PrintItems(b));
    }
  }

  /** The writing loops. */
  method WriteRows(g: Grid, groups: seq<string>) returns (text: string)
    requires forall n :: n in groups ==> n in g.groups && n in g.orders
    ensures text == PrintItems(Emission(g, groups))
  {
    hide PrintItem, PrintItems;
    text := "";
    assert PrintItems([]) == "" by { NoItems(); }
    assert GroupItems(g, groups)[..0] == [];
    for i := 0 to |groups|
      invariant text == PrintItems(GroupItems(g, groups)[..i])
    {
      var row := GroupRow(groups[i], g.orders[groups[i]], g.groups[groups[i]]);
      OneMoreRow(GroupItems(g, groups), i);
      text := text + PrintItem(row);
    }
    ghost var front := GroupItems(g, groups);
    assert front[..|groups|] == front && StageItems(g.stages)[..0] == [] && front + [] == front;
    for i := 0 to |g.stages|
      invariant text == PrintItems(front + StageItems(g.stages)[..i])
    {
      var row := StageRow(g.stages[i]);
      PrintAppend(front, StageItems(g.stages)[..i]);
      PrintAppend(front, StageItems(g.stages)[..i + 1]);
      OneMoreRow(StageItems(g.stages), i);
      Regroup(PrintItems(front), PrintItems(StageItems(g.stages)[..i]), PrintItem(row));
      text := text + PrintItem(row);
    }
    assert StageItems(g.stages)[..|g.stages|] == StageItems(g.stages);
  }

  lemma NoItems()
    ensures PrintItems([]) == ""
  {
  }

  lemma OneMoreRow(items: seq<Item>, i: nat)
    requires i < |items|
    ensures PrintItems(items[..i + 1]) == PrintItems(items[..i]) + PrintItem(items[i])
  {
    hide PrintItem;
    assert items[..i + 1] == items[..i] + [items[i]];
    PrintAppend(items[..i], [items[i]]);
    assert [items[i]][1..] == [] && PrintItem(items[i]) + "" == PrintItem(items[i]);
  }

  // ---------------------------------------------------------------- the other rows

  lemma {:induction false} SettingsAreWhole(settings: seq<(string, string)>)
    ensures Whole(SettingsText(settings))
  {
    if settings != [] { SettingsAreWhole(settings[1..]); }
  }

  lemma OtherTag(tag: string, more: string)
    requires tag in {"ENV", "CTX", "UNCONFIRMED"} && LINE_END !in more
    ensures ReadText(tag + [TAB_CHAR] + more + [LINE_END]) == [] && Whole(tag + [TAB_CHAR] + more + [LINE_END])
  {
    hide ReadText, ReadFields;
    var line := tag + [TAB_CHAR] + more;
    assert LINE_END !in tag && TAB_CHAR !in tag && tag != "" && tag != "GROUP" && tag != "STAGE";
    assert line[|tag| + 1..] == more;
    TagRead(tag, line);
    OneLineText(line);
  }

  /** Settings without line ends are not taken for rows. */
  lemma {:induction false} SettingsSilent(settings: seq<(string, string)>)
    requires forall p :: p in settings ==> LINE_END !in p.0 && LINE_END !in p.1
    ensures ReadText(SettingsText(settings)) == []
  {
    hide ReadText;
    if settings == [] {
      EmptyText();
    } else {
      assert settings[0] in settings;
      var more := settings[0].0 + [TAB_CHAR] + settings[0].1;
      OtherTag("ENV", more);
      SettingsSilent(settings[1..]);
      ReadAppend("ENV" + [TAB_CHAR] + more + [LINE_END], SettingsText(settings[1..]));
    }
  }

  /** Context nodes and a reason without line ends are not taken for rows. */
  lemma ClosingSilent(x: Extras)
    requires LINE_END !in x.reason && LINE_END !in x.unconfirmed && forall n :: n in x.context ==> LINE_END !in n
    ensures ReadText(ClosingText(x)) == []
  {
    hide ReadText, Join;
    JoinHolds(x.context, ',', LINE_END);
    var more := Join(x.context, ',') + [TAB_CHAR] + x.reason;
    OtherTag("CTX", more);
    OtherTag("UNCONFIRMED", x.unconfirmed);
    ReadAppend("CTX" + [TAB_CHAR] + more + [LINE_END], "UNCONFIRMED" + [TAB_CHAR] + x.unconfirmed + [LINE_END]);
  }

  // ---------------------------------------------------------------- what an accepted plan says to its reader

  /** `ordered_groups`: every group of the grid once. */
  ghost predicate Lists(groups: seq<string>, g: Grid) {
    Distinct(groups) && forall n :: n in groups <==> n in g.groups
  }

  ghost predicate NoBlanks(entries: seq<Entry>) {
    forall e, m :: e in entries && m in e.members ==> m != ""
  }

  /**
    Every field that is printed is of the form that the reader gives back, and no other row passes for a group or
    stage.
   */
  ghost predicate Printable(g: Grid, groups: seq<string>, x: Extras)
    requires forall n :: n in groups ==> n in g.groups && n in g.orders
  {
    && (forall item :: item in Emission(g, groups) ==> Form(item))
    && ReadText(SettingsText(x.settings)) == [] && ReadText(ClosingText(x)) == []
  }

  lemma ListedInGrid(g: Grid, groups: seq<string>, entries: seq<Entry>)
    requires GridOf(g, entries) && Lists(groups, g)
    ensures forall n :: n in groups ==> n in g.groups && n in g.orders
  {
    hide StagesOf;
  }

  lemma EmissionFilled(op: Operation, entries: seq<Entry>, context: seq<string>, g: Grid, groups: seq<string>)
    requires Acceptable(op, entries, context) && NoBlanks(entries) && GridOf(g, entries) && Lists(groups, g)
    ensures forall n :: n in groups ==> n in g.groups && n in g.orders
    ensures forall item :: item in Emission(g, groups) ==> Filled(item)
  {
    hide StagesOf, FirstOrder, Compatible, CellExists;
    ListedInGrid(g, groups, entries);
    forall item | item in Emission(g, groups) ensures Filled(item) {
      if item.GroupRow? {
        assert item in GroupItems(g, groups);
        assert HasGroup(entries, item.name);
        var e :| e in entries && e.group == item.name;
        assert GoodEntry(op, e);
      }
    }
  }

  /**
    Main result: the emitted text of an accepted plan reads back as exactly its groups and stages if and only if it
    is printable.
   */
  lemma EmittedExact(op: Operation, entries: seq<Entry>, context: seq<string>, g: Grid, groups: seq<string>, x: Extras)
    requires Acceptable(op, entries, context) && NoBlanks(entries) && GridOf(g, entries) && Lists(groups, g)
    ensures forall n :: n in groups ==> n in g.groups && n in g.orders
    ensures ReadText(PlanText(g, groups, x)) == Emission(g, groups) <==> Printable(g, groups, x)
  {
    hide ReadText, Form, Filled, Emission, Acceptable, GridOf, Lists, NoBlanks, PrintItems;
    EmissionFilled(op, entries, context, g, groups);
    SettingsAreWhole(x.settings);
    TextExact(SettingsText(x.settings), Emission(g, groups), ClosingText(x));
  }

  function StagesRead(items: seq<Item>): seq<Key> {
    if items == [] then [] else
      (if items[0].StageRow? then [items[0].key] else []) + StagesRead(items[1..])
  }

  function NamesRead(items: seq<Item>): seq<string> {
    if items == [] then [] else
      (if items[0].GroupRow? then [items[0].name] else []) + NamesRead(items[1..])
  }

  lemma {:induction false} StagesAppend(a: seq<Item>, b: seq<Item>)
    ensures StagesRead(a + b) == StagesRead(a) + StagesRead(b)
  {
    if a == [] {
      assert a + b == b;
    } else {
      TailOfAppend(a, b);
      StagesAppend(a[1..], b);
      Regroup(if a[0].StageRow? then [a[0].key] else [], StagesRead(a[1..]), StagesRead(b));
    }
  }

  lemma {:induction false} NamesAppend(a: seq<Item>, b: seq<Item>)
    ensures NamesRead(a + b) == NamesRead(a) + NamesRead(b)
  {
    if a == [] {
      assert a + b == b;
    } else {
      TailOfAppend(a, b);
      NamesAppend(a[1..], b);
      Regroup(if a[0].GroupRow? then [a[0].name] else [], NamesRead(a[1..]), NamesRead(b));
    }
  }

  lemma {:induction false} OnlyStages(stages: seq<Key>)
    ensures StagesRead(StageItems(stages)) == stages && NamesRead(StageItems(stages)) == []
  {
    if stages != [] {
      OnlyStages(stages[1..]);
      assert StageItems(stages)[1..] == StageItems(stages[1..]);
    }
  }

  lemma {:induction false} OnlyGroups(g: Grid, groups: seq<string>)
    requires forall n :: n in groups ==> n in g.groups && n in g.orders
    ensures StagesRead(GroupItems(g, groups)) == [] && NamesRead(GroupItems(g, groups)) == groups
  {
    if groups != [] {
      OnlyGroups(g, groups[1..]);
      assert GroupItems(g, groups)[1..] == GroupItems(g, groups[1..]);
    }
  }

  lemma EmissionRead(g: Grid, groups: seq<string>)
    requires forall n :: n in groups ==> n in g.groups && n in g.orders
    ensures StagesRead(Emission(g, groups)) == g.stages && NamesRead(Emission(g, groups)) == groups
  {
    hide StagesRead, NamesRead;
    StagesAppend(GroupItems(g, groups), StageItems(g.stages));
    NamesAppend(GroupItems(g, groups), StageItems(g.stages));
    OnlyGroups(g, groups);
    OnlyStages(g.stages);
    assert [] + g.stages == g.stages && groups + [] == groups;
  }

  /**
    Main result: what the controller reads from an accepted, printable plan are exactly its stage entries, as the
    stages read times the groups read, with the members of the entries; and no context node is a member read.
   */
  lemma ReadGridExact(op: Operation, entries: seq<Entry>, context: seq<string>, g: Grid, groups: seq<string>, x: Extras)
    requires Acceptable(op, entries, context) && NoBlanks(entries) && GridOf(g, entries) && Lists(groups, g)
    requires (forall n :: n in groups ==> n in g.groups && n in g.orders) && Printable(g, groups, x)
    ensures var read := ReadText(PlanText(g, groups, x));
            && multiset(CellsOf(entries)) == multiset(Rows(StagesRead(read), NamesRead(read)))
            && |CellsOf(entries)| == |StagesRead(read)| * |NamesRead(read)|
            && (forall item :: item in read && item.GroupRow? ==>
                  exists e :: e in entries && e.group == item.name && e.members == item.members)
            && (forall item, n :: item in read && item.GroupRow? && n in context ==> n !in item.members)
  {
    hide ReadText, Printable, PlanText, StagesRead, NamesRead, CellsOf, Rows, Emission;
    EmittedExact(op, entries, context, g, groups, x);
    EmissionRead(g, groups);
    GridIsExact(op, entries, context, g, groups);
    MembersAreThose(op, entries, context, g, groups);
  }

  lemma MembersAreThose(op: Operation, entries: seq<Entry>, context: seq<string>, g: Grid, groups: seq<string>)
    requires Acceptable(op, entries, context) && GridOf(g, entries)
    requires forall n :: n in groups ==> n in g.groups && n in g.orders
    ensures forall item :: item in Emission(g, groups) && item.GroupRow? ==>
              exists e :: e in entries && e.group == item.name && e.members == item.members
    ensures forall item, n :: item in Emission(g, groups) && item.GroupRow? && n in context ==> n !in item.members
  {
    hide StagesOf, FirstOrder, Compatible, CellExists, GoodEntry;
    forall item | item in Emission(g, groups) && item.GroupRow?
      ensures exists e :: e in entries && e.group == item.name && e.members == item.members
    {
      assert item in GroupItems(g, groups);
      assert HasGroup(entries, item.name);
      var e :| e in entries && e.group == item.name;
    }
  }

  // ---------------------------------------------------------------- which plans are printable

  /** A group order as a number prints it. */
  predicate PlainOrder(order: string) {
    order != "" && TAB_CHAR !in order && LINE_END !in order
  }

  /** Main result: the names of a GPU plan already have the form of its group rows. */
  lemma GpuNamesPrint(e: Entry, order: string)
    requires GpuSpelled(e) && PlainOrder(order)
    ensures Form(GroupRow(e.group, order, e.members))
  {
    hide Join;
    var joined := Join(e.members, ',');
    GpuNamesExact(e);
    hide GpuSpelled;
    GroupNameIsPlain(e.group);
    forall m | m in e.members ensures ',' !in m && TAB_CHAR !in m && LINE_END !in m {
      var i :| 0 <= i < |e.members| && e.members[i] == m;
      MemberNameIsPlain(m);
    }
    JoinHolds(e.members, ',', TAB_CHAR);
    JoinHolds(e.members, ',', LINE_END);
    assert joined != "" ==> joined[0] in joined && joined[|joined| - 1] in joined;
  }

  lemma GroupNameIsPlain(s: string)
    requires GroupName(s)
    ensures s != "" && TAB_CHAR !in s && LINE_END !in s
  {
    assert forall i :: 0 <= i < |"group-"| ==> s[i] == "group-"[i];
  }

  lemma MemberNameIsPlain(s: string)
    requires MemberName(s)
    ensures ',' !in s && TAB_CHAR !in s && LINE_END !in s
  {
  }

  // ---------------------------------------------------------------- plans that say something else

  /** The text of a row whose last fields start another one. */
  function TwoRows(stage: string, item: string, iteration: string, next: string): string {
    stage + [TAB_CHAR] + (item + [TAB_CHAR] + iteration) + [LINE_END] + ("STAGE" + [TAB_CHAR] + next)
  }

  function ExtraStage(): Entry {
    Entry("g", "0", ["n"], true, TwoRows("s1", "x", "1", "s2"), "y", "2")
  }

  function CommaMember(): Entry {
    Entry("g", "0", ["a,b"], true, "s", "x", "1")
  }

  lemma OneEntryAccepted(e: Entry, context: seq<string>)
    requires e.group != "" && e.members != [] && forall n :: n in context ==> n !in e.members
    requires e.isStage
    ensures Acceptable(OtherOperation, [e], context)
  {
    assert e in [e];
    assert CellExists([e], KeyOf(e), e.group);
  }

  lemma SameText(a: seq<Item>, b: seq<Item>)
    requires PrintItems(a) == PrintItems(b) && (forall item :: item in b ==> Filled(item) && Form(item))
    ensures ReadText(PrintItems(a)) == b
  {
    hide ReadText, PrintItems, Filled, Form;
    ItemsExact(b);
  }

  lemma TwoRowsText(stage: string, item: string, iteration: string, next: string, value: string, rest: string)
    ensures PrintItem(StageRow(Key(TwoRows(stage, item, iteration, next), value, rest)))
         == PrintItem(StageRow(Key(stage, item, iteration))) + PrintItem(StageRow(Key(next, value, rest)))
  {
  }

  lemma PlainRows()
    ensures Form(GroupRow("g", "0", ["n"])) && Filled(GroupRow("g", "0", ["n"]))
    ensures Form(StageRow(Key("s1", "x", "1"))) && Form(StageRow(Key("s2", "y", "2")))
  {
    assert Join(["n"], ',') == "n";
  }

  /** One accepted entry whose stage id holds separators is read as two stages. */
  lemma ExtraStageIsRead()
    ensures var e := ExtraStage();
            && Acceptable(OtherOperation, [e], [])
            && ReadText(PrintItems([GroupRow(e.group, e.order, e.members), StageRow(KeyOf(e))]))
               == [GroupRow("g", "0", ["n"]), StageRow(Key("s1", "x", "1")), StageRow(Key("s2", "y", "2"))]
  {
    var e := ExtraStage();
    OneEntryAccepted(e, []);
    var group := GroupRow("g", "0", ["n"]);
    var one, two := StageRow(Key("s1", "x", "1")), StageRow(Key("s2", "y", "2"));
    hide PrintItem, PrintItems, Form, Filled, TwoRows, Acceptable;
    TwoRowsText("s1", "x", "1", "s2", "y", "2");
    PlainRows();
    assert Filled(one) && Filled(two) by { StagesFilled(one); StagesFilled(two); }
    TwoForOne(group, StageRow(KeyOf(e)), one, two);
    SameText([group, StageRow(KeyOf(e))], [group, one, two]);
  }

  lemma StagesFilled(item: Item)
    requires item.StageRow?
    ensures Filled(item)
  {
  }

  lemma TwoForOne(first: Item, both: Item, one: Item, two: Item)
    requires PrintItem(both) == PrintItem(one) + PrintItem(two)
    ensures PrintItems([first, both]) == PrintItems([first, one, two])
  {
    hide PrintItem;
    var a: seq<Item>, b: seq<Item> := [first, both], [first, one, two];
    var a1: seq<Item>, b1: seq<Item>, b2: seq<Item>, none: seq<Item> := [both], [one, two], [two], [];
    assert a[1..] == a1 && a1[1..] == none && b[1..] == b1 && b1[1..] == b2 && b2[1..] == none;
    assert PrintItems(a1) == PrintItem(both) + "" && PrintItems(b2) == PrintItem(two) + "";
    assert PrintItem(two) + "" == PrintItem(two);
  }

  /** A member with a comma is read as two, and a context node becomes a member. */
  lemma CommaMemberIsRead()
    ensures var e := CommaMember();
            && Acceptable(OtherOperation, [e], ["a"])
            && ReadText(PrintItems([GroupRow(e.group, e.order, e.members), StageRow(KeyOf(e))]))
               == [GroupRow("g", "0", ["a", "b"]), StageRow(KeyOf(e))]
  {
    var e := CommaMember();
    OneEntryAccepted(e, ["a"]);
    var whole, split, stage := GroupRow("g", "0", ["a,b"]), GroupRow("g", "0", ["a", "b"]), StageRow(KeyOf(e));
    var ab: seq<string>, b: seq<string> := ["a", "b"], ["b"];
    assert ab[1..] == b && Join(ab, ',') == "a" + "," + "b" == "a,b" && Join(["a,b"], ',') == "a,b";
    assert PrintItem(whole) == PrintItem(split);
    assert Form(split) && Filled(split) && Form(stage);
    SameFirst2(whole, split, stage);
    SameText([whole, stage], [split, stage]);
  }

  lemma SameFirst2(a: Item, b: Item, c: Item)
    requires PrintItem(a) == PrintItem(b)
    ensures PrintItems([a, c]) == PrintItems([b, c])
  {
    hide PrintItem;
    assert [a, c][1..] == [c] && [b, c][1..] == [c];
  }

  const STRAY_REASON: string := "z" + [LINE_END] + LineOf("STAGE", "s2", "y", "2")

  lemma StrayText()
    ensures ClosingText(Extras([], [], STRAY_REASON, "0"))
         == "CTX" + [TAB_CHAR] + ([TAB_CHAR] + "z") + [LINE_END]
            + (PrintItem(StageRow(Key("s2", "y", "2"))) + ("UNCONFIRMED" + [TAB_CHAR] + "0" + [LINE_END]))
  {
    hide LineOf;
    var none: seq<string> := [];
    assert Join(none, ',') == "";
  }

  /** A reason with a line end adds a stage that no entry has. */
  lemma ReasonIsRead()
    ensures ReadText(ClosingText(Extras([], [], STRAY_REASON, "0"))) == [StageRow(Key("s2", "y", "2"))]
  {
    var row := StageRow(Key("s2", "y", "2"));
    var first: string := "CTX" + [TAB_CHAR] + ([TAB_CHAR] + "z") + [LINE_END];
    var last: string := "UNCONFIRMED" + [TAB_CHAR] + "0" + [LINE_END];
    OtherTag("CTX", [TAB_CHAR] + "z");
    OtherTag("UNCONFIRMED", "0");
    StrayText();
    hide ReadText, PrintItem, ClosingText, Form, Filled, Whole;
    ItemIsWhole(row);
    PlainRows();
    StagesFilled(row);
    RowExact(row);
    ReadAppend(first, PrintItem(row) + last);
    ReadAppend(PrintItem(row), last);
  }
}
