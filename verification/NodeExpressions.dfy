/** The loops of `fold_node_names`, `_split_top_level_commas` and `_expand_bracket_expression`. */
module NodeExpressions {
  import opened Wrappers
  import opened Bytes
  import opened Decimal
  import opened Ordering
  import opened NodeFold
  import opened NodeMeaning
  import opened NodeTexts

  method Enumerate(s: set<Name>) returns (r: seq<Name>)
    ensures Distinct(r) && forall x :: x in r <==> x in s
  {
    var rest := s;
    r := [];
    while rest != {}
      invariant rest <= s && Distinct(r)
      invariant forall x :: x in r <==> x in s && x !in rest
      decreases rest
    {
      var x :| x in rest;
      r := r + [x];
      rest := rest - {x};
    }
  }

  ghost predicate NaturallyOrdered(ordered: seq<Name>, nodes: seq<Name>) {
    Sorted(KeyLeq, ordered) && Distinct(ordered) && forall x :: x in ordered <==> x in nodes
  }

  method SortNodes(nodes: seq<Name>) returns (ordered: seq<Name>)
    ensures NaturallyOrdered(ordered, nodes)
  {
    hide KeyLeq;
    var any := Enumerate(set n | n in nodes);
    ordered := Sort(KeyLeq, any);
    KeyOrder();
    SortSorted(KeyLeq, any);
    SortMultiset(KeyLeq, any);
    SameCountsDistinct(any, ordered);
  }

  method RunLabels(numbers: Numbers, width: nat) returns (ranges: seq<Bytes>)
    ensures ranges == RangeTexts(Runs(numbers), width)
  {
    hide Format;
    var first, previous := numbers[0], numbers[0];
    ranges := [];
    for i := 1 to |numbers|
      invariant ranges + RangeTexts(RunsFrom(first, previous, numbers[i..]), width) == RangeTexts(Runs(numbers), width)
    {
      var number := numbers[i];
      assert numbers[i..][1..] == numbers[i + 1..];
      if number == previous + 1 {
        previous := number;
      } else {
        var begin := RangeText(Run(first, previous), width);
        var tail := RunsFrom(number, number, numbers[i + 1..]);
        assert ([Run(first, previous)] + tail)[1..] == tail;
        assert ranges + ([begin] + RangeTexts(tail, width)) == ranges + [begin] + RangeTexts(tail, width);
        ranges := ranges + [begin];
        first, previous := number, number;
      }
    }
    assert RangeTexts([Run(first, previous)], width) == [RangeText(Run(first, previous), width)];
    ranges := ranges + [RangeText(Run(first, previous), width)];
  }

  method FoldNodeNames(nodes: seq<Name>) returns (text: Bytes)
    ensures exists ordered :: NaturallyOrdered(ordered, nodes) && text == FoldText(FoldOrdered(ordered))
    ensures (forall n :: n in nodes ==> PlainName(n)) ==>
              forall maxNodes :: maxNodes >= |nodes| ==>
                var r := ExpandText(text, maxNodes);
                r.Ok? && Distinct(r.value) && forall x :: x in r.value <==> x in nodes
  {
    hide KeyLeq, ExpandText, FoldText, Labels, Label;
    var ordered := SortNodes(nodes);
    var f := Folding([], []);
    for i := 0 to |ordered|
      invariant f == FoldOrdered(ordered[..i])
    {
      assert ordered[..i + 1][..i] == ordered[..i];
      f := AddNode(f, ordered[i]);
    }
    assert ordered[..|ordered|] == ordered;
    text := Render(f);
    if forall n :: n in nodes ==> PlainName(n) {
      forall maxNodes | maxNodes >= |nodes|
        ensures var r := ExpandText(text, maxNodes);
                r.Ok? && Distinct(r.value) && forall x :: x in r.value <==> x in nodes
      {
        FoldedNamesExpand(nodes, ordered, maxNodes);
      }
    }
  }

  method Render(f: Folding) returns (text: Bytes)
    ensures text == FoldText(f)
  {
    hide Format, Runs;
    var labels := f.plain;
    for i := 0 to |f.buckets|
      invariant labels + Labels(f.buckets[i..]) == f.plain + Labels(f.buckets)
    {
      var b := f.buckets[i];
      assert f.buckets[i..][1..] == f.buckets[i + 1..];
      var printed: Bytes;
      if |b.numbers| == 1 {
        printed := b.prefix + Format(b.numbers[0], b.width);
      } else {
        var ranges := RunLabels(b.numbers, b.width);
        printed := b.prefix + [OPEN] + Join(ranges, COMMA) + [CLOSE];
      }
      assert labels + ([printed] + Labels(f.buckets[i + 1..])) == labels + [printed] + Labels(f.buckets[i + 1..]);
      labels := labels + [printed];
    }
    assert f.buckets[|f.buckets|..] == [] && labels + [] == labels;
    text := Join(labels, COMMA);
  }

  lemma {:induction false} NotMoreThan(a: seq<Name>, b: seq<Name>)
    requires Distinct(a) && forall x :: x in a ==> x in b
    ensures |a| <= |b|
  {
    if a != [] {
      assert a[0] in b;
      var j :| 0 <= j < |b| && b[j] == a[0];
      var c := b[..j] + b[j + 1..];
      forall x | x in a[1..] ensures x in c {
        var i :| 1 <= i < |a| && a[i] == x;
        assert x in a && x in b;
        var k :| 0 <= k < |b| && b[k] == x;
        assert k != j;
        if k < j { assert c[k] == x; } else { assert c[k - 1] == x; }
      }
      NotMoreThan(a[1..], c);
    }
  }

  /** Every folding of plain names expands to each name exactly once and to nothing else. */
  lemma FoldedNamesExpand(nodes: seq<Name>, ordered: seq<Name>, maxNodes: int)
    requires NaturallyOrdered(ordered, nodes) && forall n :: n in nodes ==> PlainName(n)
    requires maxNodes >= |nodes|
    ensures var f := FoldOrdered(ordered);
            && GoodFolding(f)
            && (forall b :: b in f.buckets ==> MaximalRuns(Runs(b.numbers), b.numbers))
            && ExpandText(FoldText(f), maxNodes) == Ok(Names(f))
            && Distinct(Names(f)) && forall x :: x in Names(f) <==> x in nodes
  {
    hide KeyLeq, ExpandText, FoldText, FoldOrdered, Names, PlainName, MaximalRuns, Runs;
    var f := FoldOrdered(ordered);
    FoldOrderedCorrect(ordered);
    SameCountsDistinct(ordered, Names(f));
    assert |multiset(Names(f))| == |multiset(ordered)|;
    NotMoreThan(Names(f), nodes);
    FoldExpandRoundTrip(f, maxNodes);
    forall b | b in f.buckets ensures MaximalRuns(Runs(b.numbers), b.numbers) {
      BucketRunsMaximal(b.numbers);
    }
  }

  lemma SplitMeans(value: Bytes)
    ensures forall parts :: SplitTopLevel(value) == Ok(parts) <==> PartsAre(value, parts)
    ensures SplitTopLevel(value).Ok? <==> Balanced(value)
  {
    hide SplitTopLevel, PartsAre, Balanced;
    forall parts ensures SplitTopLevel(value) == Ok(parts) <==> PartsAre(value, parts) { SplitExact(value, parts); }
    SplitExact(value, []);
  }

  method SplitTopLevelCommas(value: Bytes) returns (r: Result<seq<Bytes>, NodeFileError>)
    ensures r == SplitTopLevel(value)
    ensures forall parts :: r == Ok(parts) <==> PartsAre(value, parts)
    ensures r.Ok? <==> Balanced(value)
  {
    hide PartsAre, Balanced;
    SplitMeans(value);
    r := CutAtCommas(value);
  }

  method CutAtCommas(value: Bytes) returns (r: Result<seq<Bytes>, NodeFileError>)
    ensures r == SplitTopLevel(value)
  {
    var parts: seq<Bytes> := [];
    var start, depth := 0, 0;
    assert value[0..] == value && value[0..0] == [];
    assert SplitTopLevel(value).Ok? ==> [] + SplitTopLevel(value).value == SplitTopLevel(value).value;
    for index := 0 to |value|
      invariant 0 <= start <= index && depth >= 0
      invariant SplitTopLevel(value) == Prepend(NonEmpty(parts), SplitFrom(value[index..], value[start..index], depth))
    {
      var character := value[index];
      assert value[index..][1..] == value[index + 1..];
      assert value[start..index] + [character] == value[start..index + 1];
      if character == OPEN {
        depth := depth + 1;
      } else if character == CLOSE {
        depth := depth - 1;
        if depth < 0 {
          return Err(UnmatchedClosing);
        }
      } else if character == COMMA && depth == 0 {
        var part := value[start..index];
        NonEmptyAppend(parts, part);
        ghost var rest := SplitFrom(value[index + 1..], [], 0);
        assert value[index + 1..index + 1] == [];
        var kept := if part == [] then [] else [part];
        if rest.Ok? { Regroup(NonEmpty(parts), kept, rest.value); }
        parts := parts + [part];
        start := index + 1;
      }
    }
    if depth != 0 {
      return Err(UnmatchedOpening);
    }
    NonEmptyAppend(parts, value[start..]);
    assert value[start..|value|] == value[start..];
    r := Ok(NonEmpty(parts + [value[start..]]));
  }

  method ExpandChoices(items: seq<Bytes>, maxNodes: int) returns (r: Expansion)
    ensures r == ExpandItems(items, [], maxNodes)
  {
    hide ExpandItem;
    var expanded: seq<Name> := [];
    for i := 0 to |items|
      invariant ExpandItems(items, [], maxNodes) == ExpandItems(items[i..], expanded, maxNodes)
    {
      assert items[i..][1..] == items[i + 1..];
      match ExpandItem(items[i]) {
        case Err(e) => return Err(e);
        case Ok(more) =>
          expanded := expanded + more;
          if |expanded| > maxNodes {
            return Err(TooMany);
          }
      }
    }
    r := Ok(expanded);
  }

  method AllCombinations(prefix: Bytes, choices: seq<Name>, tails: seq<Name>) returns (results: seq<Name>)
    ensures results == Product(prefix, choices, tails)
  {
    hide Combine;
    results := [];
    for i := 0 to |choices|
      invariant results + Product(prefix, choices[i..], tails) == Product(prefix, choices, tails)
    {
      assert choices[i..][1..] == choices[i + 1..];
      var here := Combine(prefix, choices[i], tails);
      var rest := Product(prefix, choices[i + 1..], tails);
      assert results + (here + rest) == results + here + rest;
      results := results + here;
    }
    assert choices[|choices|..] == [] && results + [] == results;
  }

  method ExpandBracketExpression(expression: Bytes, maxNodes: int) returns (r: Expansion)
    ensures r == Expand(expression, maxNodes)
    ensures forall names :: r == Ok(names) <==> Fits(expression, names, maxNodes)
    decreases |expression|
  {
    hide ExpandItems, Product, Split, Assemble, IndexOf, Fits;
    forall names ensures Expand(expression, maxNodes) == Ok(names) <==> Fits(expression, names, maxNodes) {
      ExpandExact(expression, names, maxNodes);
    }
    var opening := IndexOf(expression, OPEN);
    if opening == |expression| {
      return Ok([expression]);
    }
    var after := expression[opening + 1..];
    var closing := IndexOf(after, CLOSE);
    if closing == |after| {
      return Err(UnmatchedOpening);
    }
    if closing == 0 {
      return Err(EmptyRange);
    }
    var choices := ExpandChoices(Split(after[..closing], COMMA), maxNodes);
    var tails := ExpandBracketExpression(after[closing + 1..], maxNodes);
    r := AssembleResults(expression[..opening], choices, tails, maxNodes);
  }

  method AssembleResults(prefix: Bytes, choices: Expansion, tails: Expansion, maxNodes: int) returns (r: Expansion)
    ensures r == Assemble(prefix, choices, tails, maxNodes)
  {
    if choices.Err? {
      return choices;
    }
    if tails.Err? {
      return tails;
    }
    var results := AllCombinations(prefix, choices.value, tails.value);
    r := if |results| > maxNodes then Err(TooMany) else Ok(results);
  }
}
