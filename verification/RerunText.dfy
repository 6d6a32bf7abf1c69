/**
  The text that `rerun_plan.main` emits, and the way the controller script splits it again: `read` with a tab as
  separator, which takes a run of tabs for one, and `read -a` with a comma.
 */
module RerunText {
  import opened Bytes
  import opened Ordering
  import opened RerunGrid

  const TAB_CHAR := '\t'
  const LINE_END := '\n'

  // ---------------------------------------------------------------- reading

  function DropTabs(s: string): (r: string)
    ensures |r| <= |s| && (r != "" ==> r[0] != TAB_CHAR)
    ensures s == "" || s[0] != TAB_CHAR ==> r == s
    ensures |r| == |s| ==> r == s
  {
    if s != "" && s[0] == TAB_CHAR then DropTabs(s[1..]) else s
  }

  function TrimTabs(s: string): (r: string)
    ensures r <= s && (r != "" ==> r[|r| - 1] != TAB_CHAR)
    ensures s == "" || s[|s| - 1] != TAB_CHAR ==> r == s
  {
    if s != "" && s[|s| - 1] == TAB_CHAR then TrimTabs(s[..|s| - 1]) else s
  }

  /** The text up to the first tab. */
  function Word(s: string): string {
    s[..IndexOf(s, TAB_CHAR)]
  }

  /** What follows the first run of tabs. */
  function Tail(s: string): string {
    DropTabs(s[IndexOf(s, TAB_CHAR)..])
  }

  datatype Fields = Fields(tag: string, key: string, value: string, rest: string)

  /** `IFS=$'\t' read -r tag key value rest` */
  function ReadFields(line: string): Fields {
    var a := DropTabs(line);
    Fields(Word(a), Word(Tail(a)), Word(Tail(Tail(a))), TrimTabs(Tail(Tail(Tail(a)))))
  }

  /** `IFS=, read -r -a`: an empty last field is dropped. */
  function CommaFields(rest: string): seq<string> {
    if rest == "" then [] else
      var f := Split(rest, ',');
      if f[|f| - 1] == "" then f[..|f| - 1] else f
  }

  datatype Item = GroupRow(name: string, order: string, members: seq<string>) | StageRow(key: Key)

  /** The controller's `case` on the tag; other rows carry no group and no stage. */
  function ReadLine(line: string): seq<Item> {
    var f := ReadFields(line);
    if f.tag == "GROUP" then [GroupRow(f.key, f.value, CommaFields(f.rest))]
    else if f.tag == "STAGE" then [StageRow(Key(f.key, f.value, f.rest))]
    else []
  }

  function ReadLines(lines: seq<string>): seq<Item> {
    if lines == [] then [] else ReadLine(lines[0]) + ReadLines(lines[1..])
  }

  function ReadText(text: string): seq<Item> {
    ReadLines(Split(text, LINE_END))
  }

  // ---------------------------------------------------------------- writing

  function LineOf(tag: string, key: string, value: string, rest: string): string {
    tag + [TAB_CHAR] + (key + [TAB_CHAR] + (value + [TAB_CHAR] + rest))
  }

  function ItemLine(item: Item): string {
    match item
    case GroupRow(name, order, members) => LineOf("GROUP", name, order, Join(members, ','))
    case StageRow(key) => LineOf("STAGE", key.stage, key.item, key.iteration)
  }

  function PrintItem(item: Item): string {
    ItemLine(item) + [LINE_END]
  }

  function PrintItems(items: seq<Item>): string {
    if items == [] then "" else PrintItem(items[0]) + PrintItems(items[1..])
  }

  // ---------------------------------------------------------------- lines

  lemma {:induction false} ReadLinesAppend(a: seq<string>, b: seq<string>)
    ensures ReadLines(a + b) == ReadLines(a) + ReadLines(b)
  {
    hide ReadLine;
    if a == [] {
      assert a + b == b;
    } else {
      TailOfAppend(a, b);
      ReadLinesAppend(a[1..], b);
      Regroup(ReadLine(a[0]), ReadLines(a[1..]), ReadLines(b));
    }
  }

  /** A text of whole lines. */
  ghost predicate Whole(text: string) {
    text == "" || text[|text| - 1] == LINE_END
  }

  lemma ReadAfterLine(front: string, b: string)
    ensures ReadText(front + [LINE_END] + b) == ReadLines(Split(front, LINE_END)) + ReadText(b)
  {
    hide ReadLines, Split;
    SplitAppend(front, LINE_END, b);
    ReadLinesAppend(Split(front, LINE_END), Split(b, LINE_END));
  }

  lemma ReadAppend(a: string, b: string)
    requires Whole(a)
    ensures ReadText(a + b) == ReadText(a) + ReadText(b)
  {
    hide ReadText, ReadLines, Split;
    EmptyText();
    if a == "" {
      assert a + b == b && [] + ReadText(b) == ReadText(b);
    } else {
      var front, none: string := a[..|a| - 1], "";
      assert a == front + [LINE_END] + none && a + b == front + [LINE_END] + b;
      ReadAfterLine(front, b);
      ReadAfterLine(front, none);
      assert ReadLines(Split(front, LINE_END)) + [] == ReadLines(Split(front, LINE_END));
    }
  }

  lemma EmptyLine()
    ensures ReadLine("") == []
  {
    var none: string := "";
    assert DropTabs(none) == none && IndexOf(none, TAB_CHAR) == 0;
    hide DropTabs, TrimTabs, IndexOf, CommaFields;
    assert ReadFields(none).tag == none;
    assert |"GROUP"| == 5 && |"STAGE"| == 5;
  }

  lemma EmptyText()
    ensures ReadText("") == []
  {
    hide ReadLine, Split;
    SplitStep("", LINE_END, "");
    EmptyLine();
    var lines: seq<string> := [""];
    assert lines[1..] == [];
  }

  lemma {:induction false} PiecesHold(s: string, sep: char, p: string)
    requires p in Split(s, sep)
    ensures sep !in p && forall c :: c in p ==> c in s
    decreases |s|
  {
    var i := IndexOf(s, sep);
    if i < |s| && p != s[..i] {
      assert p in Split(s[i + 1..], sep);
      PiecesHold(s[i + 1..], sep, p);
    }
  }

  lemma {:induction false} ItemOfLine(lines: seq<string>, item: Item) returns (line: string)
    requires item in ReadLines(lines)
    ensures line in lines && item in ReadLine(line)
  {
    hide ReadLine;
    if item in ReadLine(lines[0]) {
      line := lines[0];
    } else {
      line := ItemOfLine(lines[1..], item);
    }
  }

  // ---------------------------------------------------------------- what a row can say

  ghost predicate NoEdgeTabs(s: string) {
    s == "" || (s[0] != TAB_CHAR && s[|s| - 1] != TAB_CHAR)
  }

  /** Fields that `read` gives back: no separators, and nothing behind an empty field. */
  ghost predicate FieldForm(key: string, value: string, rest: string) {
    && LINE_END !in key && LINE_END !in value && LINE_END !in rest
    && TAB_CHAR !in key && TAB_CHAR !in value && NoEdgeTabs(rest)
    && (key == "" ==> value == "") && (value == "" ==> rest == "")
  }

  ghost predicate Form(item: Item) {
    match item
    case GroupRow(name, order, members) =>
      FieldForm(name, order, Join(members, ',')) && forall m :: m in members ==> ',' !in m
    case StageRow(key) => FieldForm(key.stage, key.item, key.iteration)
  }

  /** A group has members, and blank ones have been dropped. */
  ghost predicate Filled(item: Item) {
    item.GroupRow? ==> item.members != [] && forall m :: m in item.members ==> m != ""
  }

  // ---------------------------------------------------------------- reading one line

  lemma WordIs(w: string, tail: string)
    requires TAB_CHAR !in w
    ensures Word(w + [TAB_CHAR] + tail) == w && Tail(w + [TAB_CHAR] + tail) == DropTabs(tail)
    ensures Word(w) == w && Tail(w) == ""
  {
    hide IndexOf;
    var s := w + [TAB_CHAR] + tail;
    IndexOfAt(w, TAB_CHAR, tail);
    assert s[..|w|] == w && s[|w|..] == [TAB_CHAR] + tail;
    assert ([TAB_CHAR] + tail)[1..] == tail;
    assert IndexOf(w, TAB_CHAR) == |w| && w[|w|..] == "";
  }

  lemma WordShape(s: string)
    ensures TAB_CHAR !in Word(s)
    ensures |Tail(s)| <= |s| && (Tail(s) != "" ==> Tail(s)[0] != TAB_CHAR)
    ensures s == "" ==> Word(s) == "" && Tail(s) == ""
    ensures s != "" && s[0] != TAB_CHAR ==> Word(s) != ""
  {
    hide IndexOf, DropTabs;
  }

  lemma {:induction false} DropTabsHolds(s: string)
    ensures forall c :: c in DropTabs(s) ==> c in s
  {
    if s != "" && s[0] == TAB_CHAR { DropTabsHolds(s[1..]); }
  }

  lemma TailHolds(s: string)
    ensures forall c :: c in Tail(s) || c in Word(s) ==> c in s
  {
    hide IndexOf, DropTabs;
    DropTabsHolds(s[IndexOf(s, TAB_CHAR)..]);
  }

  /** Whatever the line, the fields read have no separators in them, and an empty one has only empty ones behind it. */
  lemma FieldsShape(line: string)
    requires LINE_END !in line
    ensures var f := ReadFields(line); FieldForm(f.key, f.value, f.rest)
  {
    hide Word, Tail, DropTabs, TrimTabs;
    var a := DropTabs(line);
    var b := Tail(a);
    var c := Tail(b);
    var d := Tail(c);
    DropTabsHolds(line);
    TailHolds(a);
    TailHolds(b);
    TailHolds(c);
    WordShape(a);
    WordShape(b);
    WordShape(c);
    TrimShape(d);
  }

  lemma TrimShape(d: string)
    requires d == "" || d[0] != TAB_CHAR
    ensures NoEdgeTabs(TrimTabs(d)) && forall c :: c in TrimTabs(d) ==> c in d
  {
    hide TrimTabs;
    var t := TrimTabs(d);
    assert t != "" ==> t[0] == d[0];
  }

  lemma TagIs(tag: string, key: string, value: string, rest: string)
    requires TAB_CHAR !in tag && tag != ""
    ensures var line := LineOf(tag, key, value, rest);
            && DropTabs(line) == line && Word(line) == tag
            && Tail(line) == DropTabs(key + [TAB_CHAR] + (value + [TAB_CHAR] + rest))
  {
    hide DropTabs, Word, Tail;
    var line, tail := LineOf(tag, key, value, rest), key + [TAB_CHAR] + (value + [TAB_CHAR] + rest);
    assert line == tag + [TAB_CHAR] + tail && line[0] == tag[0];
    WordIs(tag, tail);
  }

  /** Fields of this form are read back. */
  lemma FieldsRead(tag: string, key: string, value: string, rest: string)
    requires TAB_CHAR !in tag && tag != "" && FieldForm(key, value, rest)
    ensures ReadFields(LineOf(tag, key, value, rest)) == Fields(tag, key, value, rest)
  {
    hide Word, Tail;
    TagIs(tag, key, value, rest);
    var after := value + [TAB_CHAR] + rest;
    var tail := key + [TAB_CHAR] + after;
    if key == "" {
      assert tail == [TAB_CHAR, TAB_CHAR] && tail[1..] == [TAB_CHAR] && tail[1..][1..] == "";
      assert DropTabs(tail) == "";
      WordIs("", "");
    } else {
      hide DropTabs, TrimTabs;
      assert tail[0] == key[0];
      WordIs(key, after);
      if value == "" {
        OnlyTab();
        assert after == [TAB_CHAR];
        WordIs("", "");
      } else {
        assert after[0] == value[0];
        WordIs(value, rest);
        WordIs("", "");
      }
    }
  }

  lemma OnlyTab()
    ensures DropTabs([TAB_CHAR]) == ""
  {
    assert [TAB_CHAR][1..] == "";
  }

  /** With a tag, a key and a value in place, the rest is what follows without its outer tabs. */
  lemma RestRead(tag: string, key: string, value: string, rest: string)
    requires TAB_CHAR !in tag && tag != "" && TAB_CHAR !in key && key != "" && TAB_CHAR !in value && value != ""
    ensures var f := ReadFields(LineOf(tag, key, value, rest));
            f == Fields(tag, key, value, TrimTabs(DropTabs(rest)))
  {
    hide Word, Tail, DropTabs, TrimTabs;
    TagIs(tag, key, value, rest);
    var after := value + [TAB_CHAR] + rest;
    assert (key + [TAB_CHAR] + after)[0] == key[0] && after[0] == value[0];
    WordIs(key, after);
    WordIs(value, rest);
  }

  // ---------------------------------------------------------------- comma lists

  lemma JoinLast(fields: seq<string>, sep: char)
    requires |fields| > 1 && fields[|fields| - 1] == ""
    ensures Join(fields, sep) == Join(fields[..|fields| - 1], sep) + [sep]
  {
    JoinSnoc(fields[..|fields| - 1], "", sep);
    assert fields == fields[..|fields| - 1] + [""];
  }

  lemma {:induction false} JoinSnoc(fields: seq<string>, last: string, sep: char)
    requires fields != []
    ensures Join(fields + [last], sep) == Join(fields, sep) + [sep] + last
  {
    var all := fields + [last];
    assert all[1..] == fields[1..] + [last];
    if |fields| > 1 {
      JoinSnoc(fields[1..], last, sep);
      assert fields[0] + [sep] + (Join(fields[1..], sep) + [sep] + last)
          == fields[0] + [sep] + Join(fields[1..], sep) + [sep] + last;
    } else {
      assert all[1..] == [last];
    }
  }

  /** Non-blank members without commas are read back from their list. */
  lemma MembersRead(members: seq<string>)
    requires members != [] && forall m :: m in members ==> m != "" && ',' !in m
    ensures CommaFields(Join(members, ',')) == members && Join(members, ',') != ""
  {
    hide Split;
    assert members[0] in members && members[|members| - 1] in members;
    SplitJoin(members, ',');
    assert Join(members, ',') != "" by { assert |members| > 1 ==> |Join(members, ',')| >= 1; }
  }

  /** If trimming the list changed it, the members are not read back. */
  lemma MembersUntouched(members: seq<string>, rest: string)
    requires members != [] && |rest| <= |Join(members, ',')| && CommaFields(rest) == members
    ensures rest == Join(members, ',') && forall m :: m in members ==> ',' !in m
  {
    hide Split;
    var f := Split(rest, ',');
    JoinSplit(rest, ',');
    forall m | m in members ensures ',' !in m {
      assert m in f;
      PiecesHold(rest, ',', m);
    }
    if f[|f| - 1] == "" {
      assert members == f[..|f| - 1];
      JoinLast(f, ',');
    }
  }

  // ---------------------------------------------------------------- one row

  function TagOf(item: Item): string {
    if item.GroupRow? then "GROUP" else "STAGE"
  }

  lemma TagsArePlain(item: Item)
    ensures TAB_CHAR !in TagOf(item) && LINE_END !in TagOf(item) && TagOf(item) != ""
  {
  }

  /** The first line of a row has its tag, whatever the fields hold. */
  lemma RowYields(item: Item)
    ensures |ReadText(PrintItem(item))| >= 1
  {
    hide Word, Tail, DropTabs, TrimTabs, Split, CommaFields, Join;
    TagsArePlain(item);
    var text := PrintItem(item);
    var i := IndexOf(text, LINE_END);
    assert i < |text| by { assert text[|text| - 1] == LINE_END; }
    var line, rest := text[..i], text[i + 1..];
    assert text == line + [LINE_END] + rest;
    assert LINE_END !in line;
    SplitStep(line, LINE_END, rest);
    assert text[|line|] == LINE_END;
    TagStays(item, line);
    var lines := [line] + Split(rest, LINE_END);
    assert ReadLines(lines) == ReadLine(line) + ReadLines(lines[1..]);
  }

  lemma ItemLineIs(item: Item) returns (more: string)
    ensures ItemLine(item) == TagOf(item) + [TAB_CHAR] + more
  {
    hide Join;
    match item
    case GroupRow(name, order, members) => more := name + [TAB_CHAR] + (order + [TAB_CHAR] + Join(members, ','));
    case StageRow(key) => more := key.stage + [TAB_CHAR] + (key.item + [TAB_CHAR] + key.iteration);
  }

  lemma TagStays(item: Item, line: string)
    requires line < PrintItem(item) && PrintItem(item)[|line|] == LINE_END && LINE_END !in line
    ensures |ReadLine(line)| == 1
  {
    hide ReadFields, CommaFields, IndexOf, ItemLine;
    TagsArePlain(item);
    var tag, text := TagOf(item), PrintItem(item);
    var more := ItemLineIs(item);
    LongerThanTag(tag, more, text, line);
    TagRead(tag, line);
  }

  lemma LongerThanTag(tag: string, more: string, text: string, line: string)
    requires text == tag + [TAB_CHAR] + more + [LINE_END] && LINE_END !in tag
    requires line < text && text[|line|] == LINE_END
    ensures |line| > |tag| && line == tag + [TAB_CHAR] + line[|tag| + 1..]
  {
    assert text[..|tag|] == tag && text[|tag|] == TAB_CHAR;
    assert forall k :: 0 <= k < |tag| ==> text[k] == tag[k];
    assert |line| > |tag|;
    assert line[..|tag|] == text[..|tag|] && line[|tag|] == text[|tag|];
  }

  lemma TagRead(tag: string, line: string)
    requires tag != "" && TAB_CHAR !in tag && |line| > |tag| && line == tag + [TAB_CHAR] + line[|tag| + 1..]
    ensures ReadFields(line).tag == tag
  {
    hide Word, Tail, DropTabs, TrimTabs;
    WordIs(tag, line[|tag| + 1..]);
    assert line[0] == tag[0];
  }

  lemma OneLineText(line: string)
    requires LINE_END !in line
    ensures ReadText(line + [LINE_END]) == ReadLine(line)
  {
    hide ReadLine, Split;
    var none: string := "";
    SplitStep(line, LINE_END, none);
    SplitStep(none, LINE_END, none);
    EmptyLine();
    assert line + [LINE_END] + none == line + [LINE_END];
    var two: seq<string>, one: seq<string> := [line, none], [none];
    assert [line] + one == two && two[1..] == one && one[1..] == [];
    assert ReadLines(one) == ReadLine(none) + ReadLines([]);
    assert ReadLines(two) == ReadLine(line) + ReadLines(one);
  }

  lemma {:induction false} JoinHolds(fields: seq<string>, sep: char, c: char)
    requires c != sep
    ensures c in Join(fields, sep) <==> exists f :: f in fields && c in f
  {
    if |fields| > 1 {
      JoinHolds(fields[1..], sep, c);
      assert forall f :: f in fields <==> f == fields[0] || f in fields[1..];
    } else if |fields| == 1 {
      assert fields[0] in fields;
    }
  }

  lemma LineHolds(tag: string, key: string, value: string, rest: string)
    requires LINE_END !in tag
    ensures LINE_END in LineOf(tag, key, value, rest) <==> LINE_END in key || LINE_END in value || LINE_END in rest
  {
  }

  /** What is read from a line has the shape of a row. */
  lemma ReadShape(line: string, item: Item)
    requires LINE_END !in line && ReadLine(line) == [item]
    ensures item.StageRow? ==> Form(item)
    ensures item.GroupRow? ==>
              && TAB_CHAR !in item.name && TAB_CHAR !in item.order && LINE_END !in item.name && LINE_END !in item.order
              && (item.members != [] ==> item.name != "" && item.order != "")
              && forall m :: m in item.members ==> LINE_END !in m
  {
    hide ReadFields, Split;
    FieldsShape(line);
    var f := ReadFields(line);
    if item.GroupRow? && f.rest != "" {
      forall m | m in item.members ensures LINE_END !in m {
        assert m in Split(f.rest, ',');
        PiecesHold(f.rest, ',', m);
      }
    }
  }

  /** Main result: a row reads back as itself if and only if its fields have no separators and no gaps. */
  lemma RowExact(item: Item)
    requires Filled(item)
    ensures ReadText(PrintItem(item)) == [item] <==> Form(item)
  {
    hide ReadLine, ReadText, Form, Filled;
    if Form(item) {
      RowReads(item);
    }
    if ReadText(PrintItem(item)) == [item] {
      RowMustBePlain(item);
    }
  }

  lemma RowReads(item: Item)
    requires Filled(item) && Form(item)
    ensures ReadText(PrintItem(item)) == [item]
  {
    hide ReadFields, CommaFields, Split, Join;
    TagsArePlain(item);
    match item {
      case StageRow(key) =>
        FieldsRead("STAGE", key.stage, key.item, key.iteration);
        LineHolds("STAGE", key.stage, key.item, key.iteration);
      case GroupRow(name, order, members) =>
        FieldsRead("GROUP", name, order, Join(members, ','));
        LineHolds("GROUP", name, order, Join(members, ','));
        MembersRead(members);
    }
    OneLineText(ItemLine(item));
  }

  lemma RowMustBePlain(item: Item)
    requires Filled(item) && ReadText(PrintItem(item)) == [item]
    ensures Form(item)
  {
    hide ReadLine, Split, Form, Join, FieldForm;
    var lines := Split(PrintItem(item), LINE_END);
    var line := ItemOfLine(lines, item);
    PiecesHold(PrintItem(item), LINE_END, line);
    OneItem(line, item);
    ReadShape(line, item);
    if item.GroupRow? {
      GroupMustBePlain(item);
    }
  }

  lemma OneItem(line: string, item: Item)
    requires item in ReadLine(line)
    ensures ReadLine(line) == [item]
  {
    hide ReadFields, CommaFields;
  }

  lemma GroupMustBePlain(item: Item)
    requires item.GroupRow? && Filled(item) && ReadText(PrintItem(item)) == [item]
    requires TAB_CHAR !in item.name && TAB_CHAR !in item.order && LINE_END !in item.name && LINE_END !in item.order
    requires item.name != "" && item.order != "" && forall m :: m in item.members ==> LINE_END !in m
    ensures Form(item)
  {
    hide ReadFields, CommaFields, Split, Join, ReadText, DropTabs, TrimTabs;
    var joined := Join(item.members, ',');
    JoinHolds(item.members, ',', LINE_END);
    LineHolds("GROUP", item.name, item.order, joined);
    OneLineText(ItemLine(item));
    RestRead("GROUP", item.name, item.order, joined);
    var rest := TrimTabs(DropTabs(joined));
    assert CommaFields(rest) == item.members;
    MembersUntouched(item.members, rest);
    assert DropTabs(joined) == joined;
    TrimShape(joined);
  }

  // ---------------------------------------------------------------- all rows

  lemma ItemIsWhole(item: Item)
    ensures Whole(PrintItem(item))
  {
    hide ItemLine;
  }

  lemma {:induction false} ItemsAreWhole(items: seq<Item>)
    ensures Whole(PrintItems(items))
  {
    hide PrintItem;
    if items != [] {
      ItemIsWhole(items[0]);
      ItemsAreWhole(items[1..]);
    }
  }

  lemma {:induction false} EveryRowYields(items: seq<Item>)
    ensures |ReadText(PrintItems(items))| >= |items|
  {
    hide ReadText, PrintItem;
    if items == [] {
      EmptyText();
    } else {
      ItemIsWhole(items[0]);
      ReadAppend(PrintItem(items[0]), PrintItems(items[1..]));
      RowYields(items[0]);
      EveryRowYields(items[1..]);
    }
  }

  /** Rows read back as themselves if and only if each of them does. */
  lemma {:induction false} ItemsExact(items: seq<Item>)
    requires forall item :: item in items ==> Filled(item)
    ensures ReadText(PrintItems(items)) == items <==> forall item :: item in items ==> Form(item)
  {
    hide ReadText, PrintItem, Form, Filled;
    if items == [] {
      EmptyText();
    } else {
      var first, rest := items[0], items[1..];
      assert first in items && forall item :: item in items <==> item == first || item in rest;
      ItemIsWhole(first);
      ReadAppend(PrintItem(first), PrintItems(rest));
      RowYields(first);
      EveryRowYields(rest);
      RowExact(first);
      ItemsExact(rest);
      FirstAndRest(ReadText(PrintItem(first)), ReadText(PrintItems(rest)), items);
    }
  }

  lemma FirstAndRest(a: seq<Item>, b: seq<Item>, items: seq<Item>)
    requires items != [] && |a| >= 1 && |b| >= |items| - 1
    ensures a + b == items <==> a == [items[0]] && b == items[1..]
  {
    if a + b == items {
      assert |a + b| == |items|;
      assert a == items[..1] && b == items[1..];
    }
  }

  /**
    Main result: the rows of a plan, between the other rows, read back as exactly the emitted ones if and only if
    every field is of the form that `read` gives back and no line of the other rows passes for one of them.
   */
  lemma TextExact(before: string, items: seq<Item>, after: string)
    requires Whole(before) && forall item :: item in items ==> Filled(item)
    ensures ReadText(before + (PrintItems(items) + after)) == items <==>
              ReadText(before) == [] && ReadText(after) == [] && forall item :: item in items ==> Form(item)
  {
    hide ReadText, Form, Filled, PrintItems;
    ItemsAreWhole(items);
    ReadAppend(before, PrintItems(items) + after);
    ReadAppend(PrintItems(items), after);
    EveryRowYields(items);
    ItemsExact(items);
    var a, b, c := ReadText(before), ReadText(PrintItems(items)), ReadText(after);
    if a + (b + c) == items {
      assert |a| + |b| + |c| == |items|;
      assert a == [] && c == [] && [] + (b + []) == b;
    }
  }
}
