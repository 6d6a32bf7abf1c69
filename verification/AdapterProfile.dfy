/**
  Counting adapters by profile and re-aggregating after a projection (`_adapter_inventory`,
  `_project_adapter_profile`).
 */
module AdapterProfile {

  type Text = string

  /** An adapter or a projection of one: field values by name. */
  type Entry = map<Text, Text>

  datatype Counted = Counted(entry: Entry, count: nat)

  /** `{field: item.get(field)}`; a field the item lacks projects to nothing. */
  function Project(e: Entry, fields: set<Text>): Entry {
    map f | f in fields && f in e :: e[f]
  }

  /** The two have the same of these fields, with the same values. */
  predicate Agree(e: Entry, q: Entry, fields: set<Text>) {
    forall f :: f in fields ==> (f in e <==> f in q) && (f in e ==> e[f] == q[f])
  }

  /** A projection has the fields asked for and no others, and the values of its original. */
  lemma ProjectAgrees(e: Entry, fields: set<Text>)
    ensures Project(e, fields).Keys <= fields
    ensures forall q :: Agree(Project(e, fields), q, fields) <==> Agree(e, q, fields)
  {
    assert Agree(e, Project(e, fields), fields);
  }

  /** How many raw adapters agree with `q` on these fields. */
  function Tally(items: seq<Entry>, fields: set<Text>, q: Entry): nat {
    if items == [] then 0 else
      Tally(items[..|items| - 1], fields, q) + (if Agree(items[|items| - 1], q, fields) then 1 else 0)
  }

  /** The total count of the groups that agree with `q` on these fields. */
  function Weight(groups: seq<Counted>, fields: set<Text>, q: Entry): nat {
    if groups == [] then 0 else
      Weight(groups[..|groups| - 1], fields, q)
      + (if Agree(groups[|groups| - 1].entry, q, fields) then groups[|groups| - 1].count else 0)
  }

  function Total(groups: seq<Counted>): nat {
    if groups == [] then 0 else Total(groups[..|groups| - 1]) + groups[|groups| - 1].count
  }

  ghost predicate DistinctEntries(groups: seq<Counted>) {
    forall i, j :: 0 <= i < j < |groups| ==> groups[i].entry != groups[j].entry
  }

  /** Position of the group with this signature, or |groups|. */
  method Find(groups: seq<Counted>, e: Entry) returns (i: nat)
    ensures i <= |groups| && (i < |groups| ==> groups[i].entry == e)
    ensures forall k :: 0 <= k < i ==> groups[k].entry != e
  {
    i := 0;
    while i < |groups| && groups[i].entry != e
      invariant i <= |groups| && forall k :: 0 <= k < i ==> groups[k].entry != e
    {
      i := i + 1;
    }
  }

  /** `setdefault` and add: one group's count grows, or a new group appears. */
  method Add(groups: seq<Counted>, e: Entry, n: nat) returns (next: seq<Counted>)
    requires DistinctEntries(groups) && n > 0
    requires forall g :: g in groups ==> g.count > 0
    ensures DistinctEntries(next) && forall g :: g in next ==> g.count > 0
    ensures forall g :: g in next ==> g.entry == e || exists h :: h in groups && h.entry == g.entry
    ensures Total(next) == Total(groups) + n
    ensures forall fields, q ::
              Weight(next, fields, q) == Weight(groups, fields, q) + (if Agree(e, q, fields) then n else 0)
  {
    hide Agree;
    var i := Find(groups, e);
    if i < |groups| {
      next := groups[i := Counted(e, groups[i].count + n)];
      forall fields, q ensures Weight(next, fields, q)
          == Weight(groups, fields, q) + (if Agree(e, q, fields) then n else 0) {
        WeightGrows(groups, i, n, fields, q);
      }
      TotalGrows(groups, i, n);
    } else {
      next := groups + [Counted(e, n)];
      assert next[..|next| - 1] == groups;
    }
  }

  lemma {:induction false} WeightGrows(groups: seq<Counted>, i: nat, n: nat, fields: set<Text>, q: Entry)
    requires i < |groups|
    ensures var g := Counted(groups[i].entry, groups[i].count + n);
            Weight(groups[i := g], fields, q)
                == Weight(groups, fields, q) + (if Agree(groups[i].entry, q, fields) then n else 0)
  {
    hide Agree;
    var k := |groups| - 1;
    var next := groups[i := Counted(groups[i].entry, groups[i].count + n)];
    if i < k {
      WeightGrows(groups[..k], i, n, fields, q);
      assert next[..k] == groups[..k][i := Counted(groups[i].entry, groups[i].count + n)];
    } else {
      assert next[..k] == groups[..k];
    }
  }

  lemma {:induction false} TotalGrows(groups: seq<Counted>, i: nat, n: nat)
    requires i < |groups|
    ensures Total(groups[i := Counted(groups[i].entry, groups[i].count + n)]) == Total(groups) + n
  {
    var k := |groups| - 1;
    var next := groups[i := Counted(groups[i].entry, groups[i].count + n)];
    if i < k {
      TotalGrows(groups[..k], i, n);
      assert next[..k] == groups[..k][i := Counted(groups[i].entry, groups[i].count + n)];
    } else {
      assert next[..k] == groups[..k];
    }
  }

  /**
    `_adapter_inventory` after its entries are built: whatever fields one looks at, the groups weigh what the
    adapters count.
   */
  method Inventory(items: seq<Entry>) returns (groups: seq<Counted>)
    ensures DistinctEntries(groups) && (forall g :: g in groups ==> g.count > 0) && Total(groups) == |items|
    ensures forall fields, q :: Weight(groups, fields, q) == Tally(items, fields, q)
  {
    hide Agree;
    groups := [];
    assert items[..0] == [];
    for i := 0 to |items|
      invariant DistinctEntries(groups) && (forall g :: g in groups ==> g.count > 0) && Total(groups) == i
      invariant forall fields, q :: Weight(groups, fields, q) == Tally(items[..i], fields, q)
    {
      assert items[..i + 1][..i] == items[..i];
      groups := Add(groups, items[i], 1);
    }
    assert items[..|items|] == items;
  }

  /** `_project_adapter_profile`: distinct projected entries whose counts are the weights of the inventory. */
  method ProjectProfile(inventory: seq<Counted>, fields: set<Text>) returns (groups: seq<Counted>)
    requires forall g :: g in inventory ==> g.count > 0
    ensures DistinctEntries(groups) && (forall g :: g in groups ==> g.count > 0) && Total(groups) == Total(inventory)
    ensures forall g :: g in groups ==> g.entry.Keys <= fields
    ensures forall q :: Weight(groups, fields, q) == Weight(inventory, fields, q)
  {
    hide Project, Agree;
    groups := [];
    assert inventory[..0] == [];
    for i := 0 to |inventory|
      invariant DistinctEntries(groups) && (forall g :: g in groups ==> g.count > 0)
      invariant forall g :: g in groups ==> g.entry.Keys <= fields
      invariant Total(groups) == Total(inventory[..i])
      invariant forall q :: Weight(groups, fields, q) == Weight(inventory[..i], fields, q)
    {
      assert inventory[..i + 1][..i] == inventory[..i];
      var projected := Project(inventory[i].entry, fields);
      ProjectAgrees(inventory[i].entry, fields);
      groups := Add(groups, projected, inventory[i].count);
    }
    assert inventory[..|inventory|] == inventory;
  }

  lemma AgreeIsEqual(a: Entry, b: Entry, fields: set<Text>)
    requires a.Keys <= fields && b.Keys <= fields
    ensures Agree(a, b, fields) <==> a == b
  {
    if Agree(a, b, fields) {
      assert forall f :: f in a <==> f in b;
    }
  }

  lemma {:induction false} WeightOfGroup(groups: seq<Counted>, fields: set<Text>, i: nat)
    requires i < |groups| && DistinctEntries(groups)
    requires forall g :: g in groups ==> g.entry.Keys <= fields
    ensures Weight(groups, fields, groups[i].entry) == groups[i].count
  {
    hide Agree;
    var k := |groups| - 1;
    assert groups[k] in groups && groups[i] in groups;
    AgreeIsEqual(groups[k].entry, groups[i].entry, fields);
    forall g | g in groups[..k] ensures g.entry.Keys <= fields { assert g in groups; }
    if i < k {
      WeightOfGroup(groups[..k], fields, i);
    } else {
      forall g | g in groups[..k] ensures !Agree(g.entry, groups[k].entry, fields) {
        AgreeIsEqual(g.entry, groups[k].entry, fields);
      }
      NoWeight(groups[..k], fields, groups[k].entry);
    }
  }

  lemma {:induction false} NoWeight(groups: seq<Counted>, fields: set<Text>, q: Entry)
    requires forall g :: g in groups ==> !Agree(g.entry, q, fields)
    ensures Weight(groups, fields, q) == 0
  {
    hide Agree;
    if groups != [] {
      var k := |groups| - 1;
      assert groups[k] in groups;
      forall g | g in groups[..k] ensures !Agree(g.entry, q, fields) { assert g in groups; }
      NoWeight(groups[..k], fields, q);
    }
  }

  lemma {:induction false} TallyPositive(items: seq<Entry>, fields: set<Text>, e: Entry)
    requires e in items
    ensures Tally(items, fields, e) > 0
  {
    var k := |items| - 1;
    if e != items[k] {
      assert items == items[..k] + [items[k]];
      TallyPositive(items[..k], fields, e);
    }
  }

  /**
    Main result: the inventory followed by the projection has entries with the kept fields only, each counting
    exactly the raw adapters that agree with it on those fields, and every adapter agrees with exactly one entry.
    So omitted fields never split a group and no adapter is lost.
   */
  method Profile(items: seq<Entry>, fields: set<Text>) returns (groups: seq<Counted>)
    ensures forall i :: 0 <= i < |groups| ==>
              groups[i].entry.Keys <= fields && groups[i].count == Tally(items, fields, groups[i].entry) > 0
    ensures forall e :: e in items ==> exists i :: 0 <= i < |groups| && Agree(e, groups[i].entry, fields)
    ensures forall e: Entry, i, j :: 0 <= i < j < |groups| && Agree(e, groups[i].entry, fields) ==>
              !Agree(e, groups[j].entry, fields)
    ensures Total(groups) == |items|
  {
    hide Agree;
    var inventory := Inventory(items);
    groups := ProjectProfile(inventory, fields);
    forall i | 0 <= i < |groups| ensures groups[i].count == Tally(items, fields, groups[i].entry) > 0 {
      WeightOfGroup(groups, fields, i);
      assert groups[i] in groups;
    }
    forall e | e in items ensures exists i :: 0 <= i < |groups| && Agree(e, groups[i].entry, fields) {
      TallyPositive(items, fields, e);
      if forall i :: 0 <= i < |groups| ==> !Agree(groups[i].entry, e, fields) {
        NoWeight(groups, fields, e);
      }
      var i :| 0 <= i < |groups| && Agree(groups[i].entry, e, fields);
      AgreeBack(groups[i].entry, e, fields);
    }
    forall e: Entry, i, j | 0 <= i < j < |groups| && Agree(e, groups[i].entry, fields)
      ensures !Agree(e, groups[j].entry, fields)
    {
      assert groups[i] in groups && groups[j] in groups;
      NotBoth(e, groups[i].entry, groups[j].entry, fields);
    }
  }

  lemma AgreeBack(a: Entry, b: Entry, fields: set<Text>)
    requires Agree(a, b, fields)
    ensures Agree(b, a, fields)
  {
  }

  lemma NotBoth(e: Entry, a: Entry, b: Entry, fields: set<Text>)
    requires a != b && a.Keys <= fields && b.Keys <= fields && Agree(e, a, fields)
    ensures !Agree(e, b, fields)
  {
    AgreeIsEqual(a, b, fields);
  }
}
