/** Collecting the node list of a host file from its node expressions (`parse_nodes_file`). */
module NodeFile {
  import opened Wrappers
  import opened Bytes
  import opened Ordering
  import opened Decimal
  import opened NodeFold
  import opened NodeMeaning
  import opened NodeTexts
  import opened NodeExpressions

  datatype ListError = BadLimit | BadExpression(why: NodeFileError) | BadName | TooManyNodes | NoNodes

  predicate IsBlank(b: Byte) {
    9 <= b <= 13 || 28 <= b <= 32
  }

  /** node.strip() */
  function Strip(s: Bytes): Bytes {
    if s == [] then []
    else if IsBlank(s[0]) then Strip(s[1..])
    else if IsBlank(s[|s| - 1]) then Strip(s[..|s| - 1])
    else s
  }

  predicate IsAlphanumeric(b: Byte) {
    IsDigit(b) || 65 <= b <= 90 || 97 <= b <= 122
  }

  predicate IsHostByte(b: Byte) {
    IsAlphanumeric(b) || b == 95 || b == 46 || b == COLON || b == 37 || b == DASH
  }

  predicate HostName(n: Name) {
    1 <= |n| <= 253 && IsAlphanumeric(n[0]) && forall k :: 0 <= k < |n| ==> IsHostByte(n[k])
  }

  /** `_normalize_node`: blanks and the brackets of an address dropped; none for an unsafe name. */
  function Normalize(node: Name): (r: Option<Name>)
    ensures r.Some? ==> HostName(r.value)
  {
    var s := Strip(node);
    var n := if s != [] && s[0] == OPEN && s[|s| - 1] == CLOSE && COLON in s then s[1..|s| - 1] else s;
    if HostName(n) then Some(n) else None
  }

  predicate AllBlank(s: Bytes) {
    forall k :: 0 <= k < |s| ==> IsBlank(s[k])
  }

  lemma {:induction false} StripSplits(s: Bytes) returns (a: Bytes, b: Bytes)
    ensures s == a + Strip(s) + b && AllBlank(a) && AllBlank(b)
  {
    hide IsBlank, AllBlank;
    NoBlanks();
    if s == [] {
      a, b := [], [];
    } else if IsBlank(s[0]) {
      var c, d := StripSplits(s[1..]);
      a, b := [s[0]] + c, d;
      BlankInFront(s[0], c);
      MoreInFront(s[0], c, Strip(s[1..]), d);
      assert s == [s[0]] + s[1..];
    } else if IsBlank(s[|s| - 1]) {
      var c, d := StripSplits(s[..|s| - 1]);
      a, b := c, d + [s[|s| - 1]];
      BlankBehind(d, s[|s| - 1]);
      MoreBehind(c, Strip(s[..|s| - 1]), d, s[|s| - 1]);
      assert s == s[..|s| - 1] + [s[|s| - 1]];
    } else {
      a, b := [], [];
      assert [] + s + [] == s;
    }
  }

  lemma NoBlanks()
    ensures AllBlank([])
  {
  }

  lemma MoreInFront(x: Byte, a: Bytes, n: Bytes, b: Bytes)
    ensures [x] + (a + n + b) == [x] + a + n + b
  {
  }

  lemma BlankInFront(x: Byte, a: Bytes)
    requires IsBlank(x) && AllBlank(a)
    ensures AllBlank([x] + a)
  {
  }

  lemma BlankBehind(a: Bytes, x: Byte)
    requires IsBlank(x) && AllBlank(a)
    ensures AllBlank(a + [x])
  {
  }

  lemma MoreBehind(a: Bytes, n: Bytes, b: Bytes, x: Byte)
    ensures (a + n + b) + [x] == a + n + (b + [x])
  {
  }

  lemma {:induction false} StripDrops(a: Bytes, n: Bytes, b: Bytes)
    requires AllBlank(a) && AllBlank(b) && n != [] && !IsBlank(n[0]) && !IsBlank(n[|n| - 1])
    ensures Strip(a + n + b) == n
    decreases |a| + |b|
  {
    hide IsBlank;
    var s := a + n + b;
    if a != [] {
      assert s[0] == a[0] && s[1..] == a[1..] + n + b;
      StripDrops(a[1..], n, b);
    } else {
      assert s[0] == n[0];
      if b != [] {
        assert s[|s| - 1] == b[|b| - 1] && s[..|s| - 1] == a + n + b[..|b| - 1];
        StripDrops(a, n, b[..|b| - 1]);
      } else {
        assert s == n;
      }
    }
  }

  /** Blanks, a safe name or an address in brackets, and blanks. */
  ghost predicate Dressed(node: Name, n: Name) {
    exists a, b :: AllBlank(a) && AllBlank(b)
                   && (node == a + n + b || (COLON in n && node == a + ([OPEN] + n + [CLOSE]) + b))
  }

  /** Main result: a node normalises to a name if and only if it is that safe name between blanks, or in brackets. */
  lemma NormalizeExact(node: Name, n: Name)
    ensures Normalize(node) == Some(n) <==> HostName(n) && Dressed(node, n)
  {
    hide Strip;
    if Normalize(node) == Some(n) {
      var a, b := StripSplits(node);
      var s := Strip(node);
      if s != n {
        assert s == [OPEN] + n + [CLOSE];
        assert COLON in n by { InnerColon(n); }
      }
    }
    if HostName(n) && Dressed(node, n) {
      var a, b :| AllBlank(a) && AllBlank(b)
                  && (node == a + n + b || (COLON in n && node == a + ([OPEN] + n + [CLOSE]) + b));
      assert IsHostByte(n[|n| - 1]) && IsHostByte(n[0]);
      if node == a + n + b {
        StripDrops(a, n, b);
      } else {
        var s := [OPEN] + n + [CLOSE];
        StripDrops(a, s, b);
        assert s[1..|s| - 1] == n && s[|s| - 1] == CLOSE;
        assert COLON in s by { InnerColon(n); }
      }
    }
  }

  lemma InnerColon(n: Name)
    ensures COLON in [OPEN] + n + [CLOSE] <==> COLON in n
  {
  }

  lemma HostNameIsItself(n: Name)
    requires HostName(n)
    ensures Normalize(n) == Some(n) && PlainName(n)
  {
    assert Strip(n) == n;
    assert IsHostByte(n[|n| - 1]);
  }

  /** The usable names, each at its first occurrence. */
  function Kept(names: seq<Name>): seq<Name> {
    if names == [] then [] else
      var before, x := Kept(names[..|names| - 1]), Normalize(names[|names| - 1]);
      if x.None? || x.value in before then before else before + [x.value]
  }

  lemma KeptSnoc(names: seq<Name>, n: Name)
    ensures Kept(names + [n]) ==
            if Normalize(n).None? || Normalize(n).value in Kept(names) then Kept(names)
                else Kept(names) + [Normalize(n).value]
  {
    assert (names + [n])[..|names|] == names;
  }

  lemma {:induction false} KeptGrows(a: seq<Name>, b: seq<Name>)
    ensures |Kept(a)| <= |Kept(a + b)|
    decreases |b|
  {
    hide Normalize;
    if b == [] {
      assert a + b == a;
    } else {
      var k := |b| - 1;
      KeptGrows(a, b[..k]);
      assert a + b == (a + b[..k]) + [b[k]];
      KeptSnoc(a + b[..k], b[k]);
    }
  }

  /** Some name has the normal form `x`, and none up to it has the normal form `y`. */
  ghost predicate Earlier(names: seq<Name>, x: Name, y: Name) {
    exists p :: 0 <= p < |names| && Normalize(names[p]) == Some(x)
                && forall q :: 0 <= q <= p ==> Normalize(names[q]) != Some(y)
  }

  ghost predicate IsForm(names: seq<Name>, x: Name) {
    exists p :: 0 <= p < |names| && Normalize(names[p]) == Some(x)
  }

  /** The nodes are the normal forms of the names, each once, in the order of first occurrence. */
  ghost predicate FirstForms(nodes: seq<Name>, names: seq<Name>) {
    && Distinct(nodes) && (forall x :: x in nodes <==> IsForm(names, x))
    && forall i, j :: 0 <= i < j < |nodes| ==> Earlier(names, nodes[i], nodes[j])
  }

  lemma MoreNames(names: seq<Name>, n: Name)
    ensures forall x :: IsForm(names + [n], x) <==> IsForm(names, x) || Normalize(n) == Some(x)
    ensures forall x, y :: Earlier(names, x, y) ==> Earlier(names + [n], x, y)
    ensures forall x, y :: IsForm(names, x) && !IsForm(names, y) ==> Earlier(names + [n], x, y)
  {
    hide Normalize;
    var all := names + [n];
    assert all[|names|] == n;
    forall x | IsForm(names, x) ensures IsForm(all, x) {
      var p :| 0 <= p < |names| && Normalize(names[p]) == Some(x);
      assert all[p] == names[p];
    }
    forall x, y | Earlier(names, x, y) ensures Earlier(all, x, y) {
      var p :| 0 <= p < |names| && Normalize(names[p]) == Some(x)
               && forall q :: 0 <= q <= p ==> Normalize(names[q]) != Some(y);
      assert forall q :: 0 <= q <= p ==> all[q] == names[q];
    }
    forall x, y | IsForm(names, x) && !IsForm(names, y) ensures Earlier(all, x, y) {
      var p :| 0 <= p < |names| && Normalize(names[p]) == Some(x);
      assert forall q :: 0 <= q <= p ==> all[q] == names[q];
    }
  }

  /** Kept names are the normal forms of the given names, each at its first occurrence. */
  lemma {:induction false} KeptIs(names: seq<Name>)
    ensures FirstForms(Kept(names), names)
  {
    hide Normalize;
    if names != [] {
      var k := |names| - 1;
      KeptIs(names[..k]);
      hide Earlier, IsForm;
      assert names == names[..k] + [names[k]];
      MoreNames(names[..k], names[k]);
    } else {
      assert forall x :: !IsForm([], x);
    }
  }

  /** Distinct host names are kept as they are. */
  lemma {:induction false} HostsKept(names: seq<Name>)
    requires Distinct(names) && forall n :: n in names ==> HostName(n)
    ensures Kept(names) == names
  {
    hide Normalize, HostName;
    if names != [] {
      var k := |names| - 1;
      HostsKept(names[..k]);
      HostNameIsItself(names[k]);
      assert names == names[..k] + [names[k]];
    }
  }

  /** What all expressions expand to, in order. */
  function AllNames(expressions: seq<Bytes>, maxNodes: int): seq<Name> {
    if expressions == [] then [] else
      var k := |expressions| - 1;
      var last := ExpandText(expressions[k], maxNodes);
      AllNames(expressions[..k], maxNodes) + (if last.Ok? then last.value else [])
  }

  /** The list is accepted: everything expands to safe names, and there are neither none nor too many. */
  ghost predicate Accepted(expressions: seq<Bytes>, maxNodes: int) {
    && maxNodes >= 1
    && (forall e :: e in expressions ==> ExpandText(e, maxNodes).Ok?)
    && AllSafe(AllNames(expressions, maxNodes))
    && 1 <= |Kept(AllNames(expressions, maxNodes))| <= maxNodes
  }

  ghost predicate AllSafe(names: seq<Name>) {
    forall n :: n in names ==> Normalize(n).Some?
  }

  // ---------------------------------------------------------------- what a list stands for

  ghost predicate TextsStand(expressions: seq<Bytes>, lists: seq<seq<Name>>, maxNodes: int) {
    |lists| == |expressions| && forall i :: 0 <= i < |lists| ==> TextStands(expressions[i], lists[i], maxNodes)
  }

  /** The names of a list of texts, in order. */
  ghost predicate ListStands(expressions: seq<Bytes>, names: seq<Name>, maxNodes: int) {
    exists lists :: TextsStand(expressions, lists, maxNodes) && names == Concat(lists)
  }

  /** The nodes of a list: the first forms of its names, all of them safe, neither none nor too many. */
  ghost predicate NodesOf(expressions: seq<Bytes>, nodes: seq<Name>, maxNodes: int) {
    && 1 <= |nodes| <= maxNodes
    && exists names :: ListStands(expressions, names, maxNodes) && AllSafe(names) && FirstForms(nodes, names)
  }

  lemma {:induction false} ListSound(expressions: seq<Bytes>, maxNodes: int) returns (lists: seq<seq<Name>>)
    requires forall e :: e in expressions ==> ExpandText(e, maxNodes).Ok?
    ensures TextsStand(expressions, lists, maxNodes) && AllNames(expressions, maxNodes) == Concat(lists)
  {
    hide ExpandText, TextStands;
    if expressions == [] {
      lists := [];
    } else {
      var k := |expressions| - 1;
      assert expressions[k] in expressions;
      var last := ExpandText(expressions[k], maxNodes).value;
      TextExact(expressions[k], last, maxNodes);
      var before := ListSound(expressions[..k], maxNodes);
      lists := before + [last];
      ConcatSnoc(before, last);
    }
  }

  lemma {:induction false} ListComplete(expressions: seq<Bytes>, lists: seq<seq<Name>>, maxNodes: int)
    requires TextsStand(expressions, lists, maxNodes)
    ensures forall e :: e in expressions ==> ExpandText(e, maxNodes).Ok?
    ensures AllNames(expressions, maxNodes) == Concat(lists)
  {
    hide ExpandText, TextStands;
    if expressions != [] {
      var k := |expressions| - 1;
      TextExact(expressions[k], lists[k], maxNodes);
      ListComplete(expressions[..k], lists[..k], maxNodes);
      ConcatSnoc(lists[..k], lists[k]);
      assert lists == lists[..k] + [lists[k]] && expressions == expressions[..k] + [expressions[k]];
    }
  }

  lemma SameFirstForms(x: seq<Name>, y: seq<Name>, names: seq<Name>)
    requires FirstForms(x, names) && FirstForms(y, names)
    ensures x == y
  {
    hide Normalize, IsForm, Earlier;
    forall n ensures n in x <==> n in y { assert n in x <==> IsForm(names, n); }
    SameOrder(x, y, names);
  }

  lemma NotBothEarlier(names: seq<Name>, x: Name, y: Name)
    requires Earlier(names, x, y)
    ensures !Earlier(names, y, x)
  {
    hide Normalize;
  }

  lemma NoElements(a: seq<Name>, b: seq<Name>)
    requires b == [] && forall n :: n in b <==> n in a
    ensures a == b
  {
    if a != [] { SomeElement(a); }
  }

  lemma SomeElement(a: seq<Name>)
    requires a != []
    ensures exists n :: n in a
  {
    assert a[0] in a;
  }

  lemma {:induction false} SameOrder(x: seq<Name>, y: seq<Name>, names: seq<Name>)
    requires Distinct(x) && Distinct(y) && forall n :: n in x <==> n in y
    requires forall i, j :: 0 <= i < j < |x| ==> Earlier(names, x[i], x[j])
    requires forall i, j :: 0 <= i < j < |y| ==> Earlier(names, y[i], y[j])
    ensures x == y
  {
    hide Earlier;
    if x == [] {
      NoElements(y, x);
    } else {
      assert x[0] in x;
      assert x[0] in y;
      assert y[0] in y;
      if x[0] != y[0] {
        var i :| 0 <= i < |x| && x[i] == y[0];
        var j :| 0 <= j < |y| && y[j] == x[0];
        NotBothEarlier(names, x[0], x[i]);
      }
      assert x == [x[0]] + x[1..] && y == [y[0]] + y[1..];
      forall n ensures n in x[1..] <==> n in y[1..] { assert n in x <==> n in y; }
      SameOrder(x[1..], y[1..], names);
    }
  }

  /** Main result: a list is accepted exactly when it has nodes in this sense, and these are the kept names. */
  lemma AcceptedExact(expressions: seq<Bytes>, nodes: seq<Name>, maxNodes: int)
    ensures Accepted(expressions, maxNodes) && nodes == Kept(AllNames(expressions, maxNodes))
       <==> NodesOf(expressions, nodes, maxNodes)
  {
    hide ExpandText, TextStands, Normalize, FirstForms, TextsStand;
    if Accepted(expressions, maxNodes) && nodes == Kept(AllNames(expressions, maxNodes)) {
      var lists := ListSound(expressions, maxNodes);
      KeptIs(AllNames(expressions, maxNodes));
      assert ListStands(expressions, AllNames(expressions, maxNodes), maxNodes);
    }
    if NodesOf(expressions, nodes, maxNodes) {
      var names :| ListStands(expressions, names, maxNodes) && AllSafe(names) && FirstForms(nodes, names);
      var lists :| TextsStand(expressions, lists, maxNodes) && names == Concat(lists);
      ListComplete(expressions, lists, maxNodes);
      KeptIs(names);
      SameFirstForms(nodes, Kept(names), names);
    }
  }

  // ---------------------------------------------------------------- the loops

  method AddNames(nodes: seq<Name>, names: seq<Name>, maxNodes: int, ghost before: seq<Name>)
      returns (r: Result<seq<Name>, ListError>)
    requires nodes == Kept(before) && |nodes| <= maxNodes
    ensures r.Ok? <==> AllSafe(names) && |Kept(before + names)| <= maxNodes
    ensures r.Ok? ==> r.value == Kept(before + names)
  {
    hide Normalize, Kept;
    var all := nodes;
    assert names[..0] == [] && before + [] == before;
    for i := 0 to |names|
      invariant all == Kept(before + names[..i]) && |all| <= maxNodes
      invariant AllSafe(names[..i])
    {
      var n := names[i];
      assert names[..i + 1] == names[..i] + [n] && n in names;
      assert before + names[..i + 1] == (before + names[..i]) + [n];
      KeptSnoc(before + names[..i], n);
      var node := Normalize(n);
      if node.None? {
        return Err(BadName);
      }
      if node.value !in all {
        all := all + [node.value];
        if |all| > maxNodes {
          KeptGrows(before + names[..i + 1], names[i + 1..]);
          assert before + names == (before + names[..i + 1]) + names[i + 1..];
          return Err(TooManyNodes);
        }
      }
    }
    assert names[..|names|] == names;
    r := Ok(all);
  }

  lemma NextPart(parts: seq<Bytes>, i: nat, maxNodes: int)
    requires i < |parts|
    ensures var rest, first, next := ExpandParts(parts[i..], maxNodes), Expand(parts[i], maxNodes),
            ExpandParts(parts[i + 1..], maxNodes);
            && (rest.Ok? <==> first.Ok? && next.Ok?)
            && (rest.Ok? ==> rest.value == first.value + next.value)
  {
    hide Expand;
    assert parts[i..][1..] == parts[i + 1..];
  }

  /** All the parts of one expression. */
  method AddExpression(nodes: seq<Name>, expression: Bytes, maxNodes: int, ghost before: seq<Name>)
      returns (r: Result<seq<Name>, ListError>)
    requires nodes == Kept(before) && |nodes| <= maxNodes
    ensures var t := ExpandText(expression, maxNodes);
            && (r.Ok? <==> t.Ok? && AllSafe(t.value) && |Kept(before + t.value)| <= maxNodes)
            && (r.Ok? ==> r.value == Kept(before + t.value))
  {
    hide Normalize, Kept, Expand, ExpandParts, SplitFrom;
    var split := SplitTopLevelCommas(expression);
    if split.Err? {
      return Err(BadExpression(split.error));
    }
    var parts := split.value;
    ghost var t := ExpandParts(parts, maxNodes);
    var all := nodes;
    ghost var done: seq<Name> := [];
    assert parts[0..] == parts && before + [] == before;
    for i := 0 to |parts|
      invariant all == Kept(before + done) && |all| <= maxNodes && AllSafe(done)
      invariant var rest := ExpandParts(parts[i..], maxNodes);
                (t.Ok? <==> rest.Ok?) && (t.Ok? ==> t.value == done + rest.value)
    {
      NextPart(parts, i, maxNodes);
      var names := ExpandBracketExpression(parts[i], maxNodes);
      if names.Err? {
        return Err(BadExpression(names.error));
      }
      ghost var next := ExpandParts(parts[i + 1..], maxNodes);
      Regroup(before, done, names.value);
      if next.Ok? {
        Regroup(done, names.value, next.value);
        WithinAll(before, done + names.value, next.value, names.value);
      }
      var added := AddNames(all, names.value, maxNodes, before + done);
      if added.Err? {
        return added;
      }
      all := added.value;
      done := done + names.value;
    }
    assert parts[|parts|..] == [];
    NoParts(maxNodes);
    assert done + [] == done;
    r := Ok(all);
  }

  lemma NoParts(maxNodes: int)
    ensures ExpandParts([], maxNodes) == Ok([])
  {
  }

  /** Trouble with some of the names is trouble with all of them. */
  lemma WithinAll(before: seq<Name>, done: seq<Name>, rest: seq<Name>, names: seq<Name>)
    requires forall n :: n in names ==> n in done
    ensures AllSafe(done + rest) ==> AllSafe(names)
    ensures |Kept(before + done)| <= |Kept(before + (done + rest))|
  {
    hide Kept, Normalize;
    assert forall n :: n in names ==> n in done + rest;
    KeptGrows(before + done, rest);
    Regroup(before, done, rest);
  }

  lemma AllNamesSnoc(expressions: seq<Bytes>, e: Bytes, maxNodes: int)
    requires ExpandText(e, maxNodes).Ok?
    ensures AllNames(expressions + [e], maxNodes) == AllNames(expressions, maxNodes) + ExpandText(e, maxNodes).value
  {
    hide ExpandText;
    assert (expressions + [e])[..|expressions|] == expressions;
  }

  lemma {:induction false} AllNamesGrow(a: seq<Bytes>, b: seq<Bytes>, maxNodes: int)
    ensures AllNames(a, maxNodes) <= AllNames(a + b, maxNodes)
    decreases |b|
  {
    hide ExpandText;
    if b == [] {
      assert a + b == a;
    } else {
      AllNamesGrow(a, b[..|b| - 1], maxNodes);
      assert (a + b)[..|a + b| - 1] == a + b[..|b| - 1];
    }
  }

  /** An expression that cannot be added makes the whole list unacceptable. */
  lemma Rejects(expressions: seq<Bytes>, i: nat, maxNodes: int)
    requires i < |expressions|
    requires var t, before := ExpandText(expressions[i], maxNodes), AllNames(expressions[..i], maxNodes);
             !(t.Ok? && AllSafe(t.value) && |Kept(before + t.value)| <= maxNodes)
    ensures !Accepted(expressions, maxNodes)
  {
    hide ExpandText, Kept, Normalize;
    var e, before := expressions[i], AllNames(expressions[..i], maxNodes);
    assert e in expressions;
    if ExpandText(e, maxNodes).Ok? {
      var names := ExpandText(e, maxNodes).value;
      AllNamesSnoc(expressions[..i], e, maxNodes);
      assert expressions == (expressions[..i] + [e]) + expressions[i + 1..];
      AllNamesGrow(expressions[..i] + [e], expressions[i + 1..], maxNodes);
      var all := AllNames(expressions, maxNodes);
      var rest := all[|before + names|..];
      assert all == (before + names) + rest && before + names == [] + (before + names);
      assert all == [] + ((before + names) + rest);
      WithinAll([], before + names, rest, names);
    }
  }

  /** The node list of a host file whose expressions are given in order; their options are already dropped. */
  method ParseNodes(expressions: seq<Bytes>, maxNodes: int) returns (r: Result<seq<Name>, ListError>)
    ensures forall nodes :: r == Ok(nodes) <==> NodesOf(expressions, nodes, maxNodes)
  {
    hide ExpandText, Kept, Normalize, NodesOf;
    forall nodes ensures Accepted(expressions, maxNodes) && nodes == Kept(AllNames(expressions, maxNodes))
                    <==> NodesOf(expressions, nodes, maxNodes)
    {
      AcceptedExact(expressions, nodes, maxNodes);
    }
    if maxNodes < 1 {
      return Err(BadLimit);
    }
    var nodes: seq<Name> := [];
    assert expressions[..0] == [];
    NothingKept();
    for i := 0 to |expressions|
      invariant nodes == Kept(AllNames(expressions[..i], maxNodes)) && |nodes| <= maxNodes
      invariant forall e :: e in expressions[..i] ==> ExpandText(e, maxNodes).Ok?
      invariant AllSafe(AllNames(expressions[..i], maxNodes))
    {
      ghost var before := AllNames(expressions[..i], maxNodes);
      var added := AddExpression(nodes, expressions[i], maxNodes, before);
      if added.Err? {
        Rejects(expressions, i, maxNodes);
        return added;
      }
      assert expressions[..i + 1] == expressions[..i] + [expressions[i]];
      AllNamesSnoc(expressions[..i], expressions[i], maxNodes);
      nodes := added.value;
    }
    assert expressions[..|expressions|] == expressions;
    if nodes == [] {
      return Err(NoNodes);
    }
    r := Ok(nodes);
  }

  lemma NothingKept()
    ensures Kept([]) == []
  {
  }

  // ---------------------------------------------------------------- folding and parsing

  ghost predicate SameSet(a: seq<Name>, b: seq<Name>) {
    forall x :: x in a <==> x in b
  }

  /** The text is the folding of the ordered names. */
  ghost predicate FoldsTo(ordered: seq<Name>, text: Bytes) {
    text == FoldText(FoldOrdered(ordered))
  }

  lemma FoldedTextExpands(nodes: seq<Name>, ordered: seq<Name>, text: Bytes, maxNodes: int)
    requires NaturallyOrdered(ordered, nodes) && FoldsTo(ordered, text) && maxNodes >= |nodes|
    requires forall n :: n in nodes ==> PlainName(n)
    ensures var r := ExpandText(text, maxNodes); r.Ok? && Distinct(r.value) && SameSet(r.value, nodes)
  {
    hide ExpandText, FoldText, FoldOrdered, Names, PlainName, NaturallyOrdered;
    FoldedNamesExpand(nodes, ordered, maxNodes);
  }

  /**
    Main result: for host names within the limit, parsing the folded text gives each name exactly once and
    nothing else.
   */
  lemma FoldedNamesParse(nodes: seq<Name>, ordered: seq<Name>, text: Bytes, maxNodes: int)
    requires NaturallyOrdered(ordered, nodes) && FoldsTo(ordered, text) && maxNodes >= |nodes|
    requires nodes != [] && forall n :: n in nodes ==> HostName(n)
    ensures Accepted([text], maxNodes)
    ensures Distinct(Kept(AllNames([text], maxNodes))) && SameSet(Kept(AllNames([text], maxNodes)), nodes)
  {
    hide ExpandText, Normalize, HostName, PlainName, NaturallyOrdered, FoldsTo, Kept, Distinct, AllNames;
    forall n | n in nodes ensures PlainName(n) { HostNameIsItself(n); }
    FoldedTextExpands(nodes, ordered, text, maxNodes);
    var names := ExpandText(text, maxNodes).value;
    OneExpression(text, maxNodes);
    assert nodes[0] in nodes;
    assert nodes[0] in names;
    HostsKept(names);
    NotMoreThan(names, nodes);
    HostsAreSafe(names);
  }

  lemma HostsAreSafe(names: seq<Name>)
    requires forall n :: n in names ==> HostName(n)
    ensures AllSafe(names)
  {
    hide Normalize, HostName;
    forall n | n in names ensures Normalize(n).Some? { HostNameIsItself(n); }
  }

  lemma OneExpression(text: Bytes, maxNodes: int)
    ensures ExpandText(text, maxNodes).Ok? ==> AllNames([text], maxNodes) == ExpandText(text, maxNodes).value
  {
    hide ExpandText;
    assert [text][..0] == [];
    assert AllNames([], maxNodes) == [];
  }

  /** Main result: whatever host file was accepted, folding its node list and parsing it again gives the same nodes. */
  lemma ParsedNamesFold(expressions: seq<Bytes>, ordered: seq<Name>, text: Bytes, maxNodes: int)
    requires Accepted(expressions, maxNodes)
    requires NaturallyOrdered(ordered, Kept(AllNames(expressions, maxNodes))) && FoldsTo(ordered, text)
    ensures Accepted([text], maxNodes)
    ensures SameSet(Kept(AllNames([text], maxNodes)), Kept(AllNames(expressions, maxNodes)))
  {
    hide ExpandText, Normalize, NaturallyOrdered, FoldsTo, Kept;
    var nodes := Kept(AllNames(expressions, maxNodes));
    KeptIs(AllNames(expressions, maxNodes));
    forall x | x in nodes ensures HostName(x) {
      var n :| n in AllNames(expressions, maxNodes) && Normalize(n) == Some(x);
    }
    FoldedNamesParse(nodes, ordered, text, maxNodes);
  }
}
