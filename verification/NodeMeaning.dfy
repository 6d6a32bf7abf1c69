/** What node expressions stand for, said without the functions that expand them. */
module NodeMeaning {
  import opened Wrappers
  import opened Bytes
  import opened Decimal
  import opened NodeFold

  // ---------------------------------------------------------------- one item between brackets

  predicate RangeForm(item: Bytes, a: Bytes, b: Bytes) {
    a != [] && b != [] && AllDigits(a) && AllDigits(b) && item == a + [DASH] + b
  }

  /** Every number from `a` to `b` in order, written with as many digits as the longer of the two. */
  ghost predicate Counts(a: Bytes, b: Bytes, names: seq<Name>)
    requires AllDigits(a) && AllDigits(b)
  {
    && |names| == Value(b) - Value(a) + 1
    && forall k :: 0 <= k < |names| ==>
         AllDigits(names[k]) && Value(names[k]) == Value(a) + k && |names[k]| == if |a| > |b| then |a| else |b|
  }

  /** `a-b` stands for the numbers from a to b, and any other word for itself. */
  ghost predicate ItemStands(item: Bytes, names: seq<Name>) {
    if exists a, b :: RangeForm(item, a, b) then
      exists a, b :: RangeForm(item, a, b) && Value(a) <= Value(b) && Counts(a, b, names)
    else item != [] && (forall k :: 0 <= k < |item| ==> IsWordByte(item[k])) && names == [item]
  }

  lemma OneForm(item: Bytes, a: Bytes, b: Bytes)
    requires RangeForm(item, a, b)
    ensures RangeEnds(item) == Some((a, b))
  {
    assert DASH !in a by { DigitsAreWords(a); }
    IndexOfAt(a, DASH, b);
    assert item[..|a|] == a && item[|a| + 1..] == b;
  }

  lemma EndsAreForm(item: Bytes)
    ensures RangeEnds(item).Some? ==> RangeForm(item, RangeEnds(item).value.0, RangeEnds(item).value.1)
  {
    hide IndexOf;
  }

  lemma FormattedCounts(a: Bytes, b: Bytes)
    requires AllDigits(a) && AllDigits(b) && a != [] && b != [] && Value(a) <= Value(b)
    ensures Counts(a, b, FormatAll(Interval(Value(a), Value(b)), if |a| > |b| then |a| else |b|))
  {
    hide Value, Format, Pow10;
    var width := if |a| > |b| then |a| else |b|;
    ValueBound(b);
    MoreDigits(|b|, width);
    forall n | Value(a) <= n <= Value(b) ensures |Format(n, width)| == width && Value(Format(n, width)) == n {
      FormatPadded(n, width);
    }
  }

  lemma {:induction false} MoreDigits(v: nat, w: nat)
    requires v <= w
    ensures Pow10(v) <= Pow10(w)
  {
    if v < w { MoreDigits(v, w - 1); }
  }

  lemma CountsOnce(a: Bytes, b: Bytes, x: seq<Name>, y: seq<Name>)
    requires AllDigits(a) && AllDigits(b) && Counts(a, b, x) && Counts(a, b, y)
    ensures x == y
  {
    hide Value;
    forall k | 0 <= k < |x| ensures x[k] == y[k] { EqualDigits(x[k], y[k]); }
  }

  lemma ItemExact(item: Bytes, names: seq<Name>)
    ensures ExpandItem(item) == Ok(names) <==> ItemStands(item, names)
  {
    hide Value, RangeEnds, FormatAll, Counts, IsWordByte;
    EndsAreForm(item);
    if exists a, b :: RangeForm(item, a, b) {
      var a, b :| RangeForm(item, a, b);
      forall c, d | RangeForm(item, c, d) ensures c == a && d == b { OneForm(item, a, b); OneForm(item, c, d); }
      OneForm(item, a, b);
      RangeExact(item, a, b, names);
    }
  }

  lemma RangeExact(item: Bytes, a: Bytes, b: Bytes, names: seq<Name>)
    requires RangeForm(item, a, b) && RangeEnds(item) == Some((a, b))
    ensures ExpandItem(item) == Ok(names) <==> Value(a) <= Value(b) && Counts(a, b, names)
  {
    hide Value, RangeEnds, FormatAll, Counts;
    if Value(a) <= Value(b) {
      FormattedCounts(a, b);
      var all := FormatAll(Interval(Value(a), Value(b)), if |a| > |b| then |a| else |b|);
      if Counts(a, b, names) { CountsOnce(a, b, names, all); }
    }
  }

  // ---------------------------------------------------------------- the items between brackets

  /** One list of names for each item. */
  ghost predicate ItemsStand(items: seq<Bytes>, lists: seq<seq<Name>>) {
    |lists| == |items| && forall i :: 0 <= i < |items| ==> ItemStands(items[i], lists[i])
  }

  /** The text is a list of items between commas. */
  ghost predicate Listed(inner: Bytes, items: seq<Bytes>) {
    inner != [] && items != [] && Join(items, COMMA) == inner && forall x :: x in items ==> COMMA !in x
  }

  ghost predicate ChoicesStand(inner: Bytes, choices: seq<Name>) {
    exists items, lists :: Listed(inner, items) && ItemsStand(items, lists) && choices == Concat(lists)
  }

  lemma ItemNotEmpty(item: Bytes, names: seq<Name>)
    requires ItemStands(item, names)
    ensures names != []
  {
    hide Value;
  }

  lemma {:induction false} ItemsSound(items: seq<Bytes>, sofar: seq<Name>, maxNodes: int)
      returns (lists: seq<seq<Name>>)
    requires ExpandItems(items, sofar, maxNodes).Ok?
    ensures ItemsStand(items, lists) && ExpandItems(items, sofar, maxNodes).value == sofar + Concat(lists)
    decreases |items|
  {
    hide ExpandItem, ItemStands;
    if items == [] {
      lists := [];
      assert sofar + [] == sofar;
    } else {
      var more := ExpandItem(items[0]).value;
      ItemExact(items[0], more);
      var rest := ItemsSound(items[1..], sofar + more, maxNodes);
      lists := [more] + rest;
      FirstAndRest(more, rest);
      Regroup(sofar, more, Concat(rest));
    }
  }

  lemma {:induction false} ItemsComplete(items: seq<Bytes>, sofar: seq<Name>, lists: seq<seq<Name>>, maxNodes: int)
    requires ItemsStand(items, lists) && |sofar + Concat(lists)| <= maxNodes
    ensures ExpandItems(items, sofar, maxNodes) == Ok(sofar + Concat(lists))
    decreases |items|
  {
    hide ExpandItem, ItemStands;
    if items == [] {
      assert Concat(lists) == [] && sofar + [] == sofar;
    } else {
      ItemExact(items[0], lists[0]);
      Regroup(sofar, lists[0], Concat(lists[1..]));
      ItemsComplete(items[1..], sofar + lists[0], lists[1..], maxNodes);
    }
  }

  lemma {:induction false} SomeChoice(inner: Bytes, choices: seq<Name>)
    requires ChoicesStand(inner, choices)
    ensures choices != []
  {
    hide ItemStands;
    var items, lists :| Listed(inner, items) && ItemsStand(items, lists) && choices == Concat(lists);
    ItemNotEmpty(items[0], lists[0]);
  }

  lemma ChoicesSound(inner: Bytes, maxNodes: int)
    requires inner != [] && ExpandItems(Split(inner, COMMA), [], maxNodes).Ok?
    ensures ChoicesStand(inner, ExpandItems(Split(inner, COMMA), [], maxNodes).value)
  {
    hide Split, ExpandItems, ItemsStand, Join;
    JoinSplit(inner, COMMA);
    var items := Split(inner, COMMA);
    var lists := ItemsSound(items, [], maxNodes);
    assert [] + Concat(lists) == Concat(lists);
  }

  lemma ChoicesComplete(inner: Bytes, choices: seq<Name>, maxNodes: int)
    requires ChoicesStand(inner, choices) && |choices| <= maxNodes
    ensures ExpandItems(Split(inner, COMMA), [], maxNodes) == Ok(choices)
  {
    hide Split, ExpandItems, ItemsStand, Join;
    var items, lists :| Listed(inner, items) && ItemsStand(items, lists) && choices == Concat(lists);
    SplitJoin(items, COMMA);
    assert [] + Concat(lists) == Concat(lists);
    ItemsComplete(items, [], lists, maxNodes);
  }

  // ---------------------------------------------------------------- a whole expression

  /** Place `(i, j)` of a table written row by row. */
  function Place(i: nat, j: nat, rows: nat, columns: nat): (k: nat)
    requires i < rows && j < columns
    ensures k < rows * columns
  {
    PlaceFits(i, j, rows, columns);
    i * columns + j
  }

  lemma PlaceFits(i: nat, j: nat, rows: nat, columns: nat)
    requires i < rows && j < columns
    ensures i * columns + j < rows * columns
  {
    Wider(i + 1, rows, columns);
  }

  lemma Wider(a: nat, b: nat, c: nat)
    requires a <= b
    ensures a * c <= b * c
  {
  }

  /** Every choice with every ending, behind the prefix; the endings run faster. */
  ghost predicate Combined(prefix: Bytes, choices: seq<Name>, tails: seq<Name>, names: seq<Name>) {
    && |names| == |choices| * |tails|
    && forall i, j :: 0 <= i < |choices| && 0 <= j < |tails| ==>
         names[Place(i, j, |choices|, |tails|)] == prefix + choices[i] + tails[j]
  }

  ghost predicate Bracketed(expression: Bytes, prefix: Bytes, inner: Bytes, suffix: Bytes) {
    expression == prefix + [OPEN] + inner + [CLOSE] + suffix && OPEN !in prefix && CLOSE !in inner
  }

  /** The names that an expression stands for, in order. */
  ghost predicate StandsFor(expression: Bytes, names: seq<Name>)
    decreases |expression|
  {
    if OPEN !in expression then names == [expression]
    else exists prefix, inner, suffix, choices, tails ::
           && Bracketed(expression, prefix, inner, suffix) && ChoicesStand(inner, choices)
           && |suffix| < |expression| && StandsFor(suffix, tails) && Combined(prefix, choices, tails, names)
  }

  /** The names of an expression, no more of them than allowed if it has brackets. */
  ghost predicate Fits(expression: Bytes, names: seq<Name>, maxNodes: int) {
    StandsFor(expression, names) && (OPEN in expression ==> |names| <= maxNodes)
  }

  lemma {:induction false} ProductCombines(prefix: Bytes, choices: seq<Name>, tails: seq<Name>)
    ensures Combined(prefix, choices, tails, Product(prefix, choices, tails))
  {
    if choices != [] {
      var here, rest := Combine(prefix, choices[0], tails), Product(prefix, choices[1..], tails);
      ProductCombines(prefix, choices[1..], tails);
      var n, m := |choices|, |tails|;
      Rows(n, m);
      forall i, j | 0 <= i < n && 0 <= j < m
        ensures (here + rest)[Place(i, j, n, m)] == prefix + choices[i] + tails[j]
      {
        if i > 0 {
          Rows(i, m);
          assert Place(i, j, n, m) == m + Place(i - 1, j, n - 1, m);
          assert rest[Place(i - 1, j, n - 1, m)] == prefix + choices[1..][i - 1] + tails[j];
        } else {
          assert Place(i, j, n, m) == j;
        }
      }
    }
  }

  lemma Rows(n: nat, m: nat)
    requires n > 0
    ensures n * m == m + (n - 1) * m
  {
  }

  lemma CombinedOnce(prefix: Bytes, choices: seq<Name>, tails: seq<Name>, x: seq<Name>, y: seq<Name>)
    requires Combined(prefix, choices, tails, x) && Combined(prefix, choices, tails, y)
    ensures x == y
  {
    var n, m := |choices|, |tails|;
    forall k | 0 <= k < |x| ensures x[k] == y[k] {
      Cell(k, n, m);
      assert x[Place(k / m, k % m, n, m)] == y[Place(k / m, k % m, n, m)];
    }
  }

  lemma Cell(k: nat, n: nat, m: nat)
    requires k < n * m
    ensures m > 0 && 0 <= k / m < n && 0 <= k % m < m && k == (k / m) * m + k % m
  {
    if k / m >= n { Wider(n, k / m, m); }
  }

  lemma CutAt(s: Bytes, b: Byte)
    requires b in s
    ensures var i := IndexOf(s, b); i < |s| && s == s[..i] + [b] + s[i + 1..] && b !in s[..i]
  {
    hide IndexOf;
    var k :| 0 <= k < |s| && s[k] == b;
    assert IndexOf(s, b) <= k;
  }

  lemma Absent(s: Bytes, b: Byte)
    ensures IndexOf(s, b) == |s| <==> b !in s
  {
    hide IndexOf;
    if b in s { CutAt(s, b); }
  }

  lemma BracketPieces(expression: Bytes, opening: nat, closing: nat)
    requires opening == IndexOf(expression, OPEN) < |expression|
    requires closing == IndexOf(expression[opening + 1..], CLOSE) < |expression[opening + 1..]|
    ensures var after := expression[opening + 1..];
            Bracketed(expression, expression[..opening], after[..closing], after[closing + 1..])
  {
    hide IndexOf;
    Absent(expression, OPEN);
    CutAt(expression, OPEN);
    var after := expression[opening + 1..];
    Absent(after, CLOSE);
    CutAt(after, CLOSE);
    FivePieces(expression[..opening], after[..closing], after[closing + 1..]);
  }

  lemma FivePieces(prefix: Bytes, inner: Bytes, suffix: Bytes)
    ensures prefix + [OPEN] + (inner + [CLOSE] + suffix) == prefix + [OPEN] + inner + [CLOSE] + suffix
  {
  }

  /** The two steps of an expansion that succeeds. */
  lemma Unfold(expression: Bytes, maxNodes: int) returns (prefix: Bytes, inner: Bytes, suffix: Bytes)
    requires OPEN in expression && Expand(expression, maxNodes).Ok?
    ensures Bracketed(expression, prefix, inner, suffix) && inner != [] && |suffix| < |expression|
    ensures Expand(expression, maxNodes) == Assemble(prefix, ExpandItems(Split(inner, COMMA), [], maxNodes),
                                                     Expand(suffix, maxNodes), maxNodes)
  {
    hide IndexOf, ExpandItems, Split, Assemble, Bracketed;
    Absent(expression, OPEN);
    var opening := IndexOf(expression, OPEN);
    var after := expression[opening + 1..];
    var closing := IndexOf(after, CLOSE);
    BracketPieces(expression, opening, closing);
    prefix, inner, suffix := expression[..opening], after[..closing], after[closing + 1..];
  }

  lemma BracketsFound(expression: Bytes, prefix: Bytes, inner: Bytes, suffix: Bytes)
    requires Bracketed(expression, prefix, inner, suffix)
    ensures var opening := IndexOf(expression, OPEN);
            && opening == |prefix| < |expression| && expression[..opening] == prefix
            && (var after := expression[opening + 1..];
                IndexOf(after, CLOSE) == |inner| < |after| && after[..|inner|] == inner
                && after[|inner| + 1..] == suffix)
  {
    hide IndexOf;
    var rest := inner + [CLOSE] + suffix;
    assert expression == prefix + [OPEN] + rest;
    IndexOfAt(prefix, OPEN, rest);
    assert expression[|prefix| + 1..] == rest;
    IndexOfAt(inner, CLOSE, suffix);
    assert rest[..|inner|] == inner && rest[|inner| + 1..] == suffix;
  }

  lemma {:induction false} ExpandSound(expression: Bytes, maxNodes: int)
    requires Expand(expression, maxNodes).Ok?
    ensures Fits(expression, Expand(expression, maxNodes).value, maxNodes)
    decreases |expression|
  {
    hide IndexOf, ExpandItems, Product, Combined, ChoicesStand, Split, Bracketed;
    Absent(expression, OPEN);
    if OPEN in expression {
      var prefix, inner, suffix := Unfold(expression, maxNodes);
      hide Expand;
      var choices := ExpandItems(Split(inner, COMMA), [], maxNodes);
      ExpandSound(suffix, maxNodes);
      ChoicesSound(inner, maxNodes);
      ProductCombines(prefix, choices.value, Expand(suffix, maxNodes).value);
    }
  }

  /** An expression stands for at least one name, and for no fewer than its last brackets do. */
  lemma {:induction false} StandsForSome(expression: Bytes, names: seq<Name>)
    requires StandsFor(expression, names)
    ensures names != []
    decreases |expression|
  {
    hide Bracketed, ChoicesStand;
    if OPEN in expression {
      var prefix, inner, suffix, choices, tails := Pieces(expression, names);
      SomeChoice(inner, choices);
      StandsForSome(suffix, tails);
      CombinedLength(prefix, choices, tails, names);
      Factors(|choices|, |tails|);
    }
  }

  lemma Factors(n: nat, m: nat)
    requires n > 0 && m > 0
    ensures n <= n * m && m <= n * m
  {
    Wider(1, n, m);
    Wider(1, m, n);
  }

  /** The pieces of an expression with brackets, and what they stand for. */
  lemma Pieces(expression: Bytes, names: seq<Name>)
      returns (prefix: Bytes, inner: Bytes, suffix: Bytes, choices: seq<Name>, tails: seq<Name>)
    requires OPEN in expression && StandsFor(expression, names)
    ensures Bracketed(expression, prefix, inner, suffix) && ChoicesStand(inner, choices)
    ensures |suffix| < |expression| && StandsFor(suffix, tails) && Combined(prefix, choices, tails, names)
  {
    hide Bracketed, ChoicesStand, Combined;
    prefix, inner, suffix, choices, tails :|
      && Bracketed(expression, prefix, inner, suffix) && ChoicesStand(inner, choices)
      && |suffix| < |expression| && StandsFor(suffix, tails) && Combined(prefix, choices, tails, names);
  }

  /** An expression with brackets is assembled from the expansions of its pieces. */
  lemma Fold(expression: Bytes, prefix: Bytes, inner: Bytes, suffix: Bytes, maxNodes: int)
    requires Bracketed(expression, prefix, inner, suffix) && inner != [] && |suffix| < |expression|
    ensures Expand(expression, maxNodes) == Assemble(prefix, ExpandItems(Split(inner, COMMA), [], maxNodes),
                                                     Expand(suffix, maxNodes), maxNodes)
  {
    hide Expand, IndexOf, ExpandItems, Split, Assemble, Bracketed;
    BracketsFound(expression, prefix, inner, suffix);
    ExpandStep(expression, |prefix|, expression[|prefix| + 1..], |inner|, prefix, inner, suffix, maxNodes);
  }

  lemma {:induction false} ExpandStep(expression: Bytes, opening: nat, after: Bytes, closing: nat,
                                      prefix: Bytes, inner: Bytes, suffix: Bytes, maxNodes: int)
    requires opening == IndexOf(expression, OPEN) < |expression| && after == expression[opening + 1..]
    requires closing == IndexOf(after, CLOSE) < |after| && closing != 0
    requires prefix == expression[..opening] && inner == after[..closing] && suffix == after[closing + 1..]
    ensures Expand(expression, maxNodes) == Assemble(prefix, ExpandItems(Split(inner, COMMA), [], maxNodes),
                                                     Expand(suffix, maxNodes), maxNodes)
  {
    hide IndexOf, ExpandItems, Split, Assemble;
  }

  lemma Assembled(prefix: Bytes, choices: seq<Name>, tails: seq<Name>, names: seq<Name>, maxNodes: int)
    requires Combined(prefix, choices, tails, names) && |names| <= maxNodes
    ensures Assemble(prefix, Ok(choices), Ok(tails), maxNodes) == Ok(names)
  {
    hide Combined, Product;
    ProductCombines(prefix, choices, tails);
    CombinedOnce(prefix, choices, tails, names, Product(prefix, choices, tails));
  }

  lemma WholeExpression(expression: Bytes, names: seq<Name>, maxNodes: int)
    requires OPEN !in expression && StandsFor(expression, names)
    ensures Expand(expression, maxNodes) == Ok(names)
  {
    Absent(expression, OPEN);
  }

  lemma {:induction false} ExpandComplete(expression: Bytes, names: seq<Name>, maxNodes: int)
    requires StandsFor(expression, names) && (OPEN in expression ==> |names| <= maxNodes)
    ensures Expand(expression, maxNodes) == Ok(names)
    decreases |expression|
  {
    hide Expand, StandsFor, ExpandItems, Combined, ChoicesStand, Split, Bracketed, Assemble;
    if OPEN !in expression {
      WholeExpression(expression, names, maxNodes);
    } else {
      var prefix, inner, suffix, choices, tails := Pieces(expression, names);
      SomeChoice(inner, choices);
      StandsForSome(suffix, tails);
      CombinedLength(prefix, choices, tails, names);
      Factors(|choices|, |tails|);
      ExpandComplete(suffix, tails, maxNodes);
      ChoicesComplete(inner, choices, maxNodes);
      InnerNotEmpty(inner, choices);
      Fold(expression, prefix, inner, suffix, maxNodes);
      Assembled(prefix, choices, tails, names, maxNodes);
    }
  }

  lemma CombinedLength(prefix: Bytes, choices: seq<Name>, tails: seq<Name>, names: seq<Name>)
    requires Combined(prefix, choices, tails, names)
    ensures |names| == |choices| * |tails|
  {
  }

  lemma InnerNotEmpty(inner: Bytes, choices: seq<Name>)
    requires ChoicesStand(inner, choices)
    ensures inner != []
  {
    hide ItemsStand, Join;
  }

  /** Main result: an expression expands to the names it stands for, if and only if these are no more than allowed. */
  lemma ExpandExact(expression: Bytes, names: seq<Name>, maxNodes: int)
    ensures Expand(expression, maxNodes) == Ok(names) <==> Fits(expression, names, maxNodes)
  {
    hide Expand, StandsFor;
    if Expand(expression, maxNodes) == Ok(names) { ExpandSound(expression, maxNodes); }
    if Fits(expression, names, maxNodes) { ExpandComplete(expression, names, maxNodes); }
  }
}
