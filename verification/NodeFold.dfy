/**
  Folding host names into bracket ranges (cluster_run/preflight.py) and expanding
  node expressions back into names (hcu_envcheck/baremetal.py).
 */
module NodeFold {
  import opened Wrappers
  import opened Bytes
  import opened Decimal
  import opened Ordering

  type Name = Bytes

  /** A name that cannot be confused with the expression syntax. */
  predicate PlainName(name: Name) {
    name != [] && OPEN !in name && CLOSE !in name && COMMA !in name
  }

  // ---------------------------------------------------------------- natural sort key

  datatype Part = Text(text: Bytes) | Number(value: nat)

  predicate PartLeq(a: Part, b: Part) {
    match (a, b)
    case (Text(s), Text(t)) => Lex<int>(IntLeq, s, t)
    case (Number(m), Number(n)) => m <= n
    case (Text(_), Number(_)) => true
    case (Number(_), Text(_)) => false
  }

  /** Length of the longest prefix of `s` whose bytes are all digits (or all non-digits). */
  function RunLength(s: Bytes, digits: bool): (k: nat)
    ensures k <= |s|
    ensures forall i :: 0 <= i < k ==> IsDigit(s[i]) == digits
    ensures k < |s| ==> IsDigit(s[k]) != digits
  {
    if s == [] || IsDigit(s[0]) != digits then 0 else 1 + RunLength(s[1..], digits)
  }

  /** Text and number parts in turn, starting and ending with a (possibly empty) text. */
  function Key(name: Name): seq<Part>
    decreases |name|
  {
    var t := RunLength(name, false);
    if t == |name| then [Text(name)] else
      var d := RunLength(name[t..], true);
      [Text(name[..t]), Number(Value(name[t..t + d]))] + Key(name[t + d..])
  }

  predicate KeyLeq(a: Name, b: Name) {
    Lex(PartLeq, Key(a), Key(b))
  }

  lemma KeyOrder()
    ensures TotalPreorder(KeyLeq)
  {
    LexOrder(IntLeq);
    var f := (a: seq<int>, b: seq<int>) => Lex<int>(IntLeq, a, b);
    forall a, b ensures PartLeq(a, b) || PartLeq(b, a) {
      if a.Text? && b.Text? { assert f(a.text, b.text) || f(b.text, a.text); }
    }
    forall a, b, c | PartLeq(a, b) && PartLeq(b, c) ensures PartLeq(a, c) {
      if a.Text? && c.Text? { assert f(a.text, b.text) && f(b.text, c.text); }
    }
    forall a, b | PartLeq(a, b) && PartLeq(b, a) ensures a == b {
      if a.Text? { assert f(a.text, b.text) && f(b.text, a.text); }
    }
    LexOrder(PartLeq);
    var g := (a: seq<Part>, b: seq<Part>) => Lex(PartLeq, a, b);
    forall a, b ensures KeyLeq(a, b) || KeyLeq(b, a) { assert g(Key(a), Key(b)) || g(Key(b), Key(a)); }
    forall a, b, c | KeyLeq(a, b) && KeyLeq(b, c) ensures KeyLeq(a, c) {
      assert g(Key(a), Key(b)) && g(Key(b), Key(c));
    }
  }

  lemma RunLengthIs(s: Bytes, digits: bool, k: nat)
    requires k <= |s|
    requires forall i :: 0 <= i < k ==> IsDigit(s[i]) == digits
    requires k < |s| ==> IsDigit(s[k]) != digits
    ensures RunLength(s, digits) == k
  {
  }

  /** Dropping the leading text and number of `p` drops the first two parts of the key. */
  lemma KeyStep(p: Bytes, d: Bytes)
    requires AllDigits(d) && d != []
    requires var t := RunLength(p, false); t < |p| && t + RunLength(p[t..], true) < |p|
    ensures var t := RunLength(p, false);
            var u := t + RunLength(p[t..], true);
            Key(p + d) == [Text(p[..t]), Number(Value(p[t..u]))] + Key(p[u..] + d)
  {
    hide Value, Key, RunLength;
    var t := RunLength(p, false);
    var r := RunLength(p[t..], true);
    RunLengthIs(p + d, false, t);
    assert (p + d)[t..] == p[t..] + d;
    RunLengthIs((p + d)[t..], true, r);
    assert (p + d)[..t] == p[..t] && (p + d)[t..t + r] == p[t..t + r];
    assert (p + d)[t + r..] == p[t + r..] + d;
    KeyUnfold(p + d, t, r);
  }

  lemma KeyUnfold(name: Name, t: nat, r: nat)
    requires t == RunLength(name, false) < |name| && r == RunLength(name[t..], true)
    ensures Key(name) == [Text(name[..t]), Number(Value(name[t..t + r]))] + Key(name[t + r..])
  {
    hide Value, RunLength;
  }

  /** Names with the same non-digit-terminated prefix are ordered by their trailing number. */
  lemma {:induction false} SamePrefixOrder(p: Bytes, d: Bytes, e: Bytes)
    requires p == [] || !IsDigit(p[|p| - 1])
    requires AllDigits(d) && AllDigits(e) && d != [] && e != []
    requires KeyLeq(p + d, p + e)
    ensures Value(d) <= Value(e)
    decreases |p|
  {
    hide Value, Key, RunLength;
    var t := RunLength(p, false);
    if t == |p| {
      KeyOfTail(p, d);
      KeyOfTail(p, e);
      LexDrop([Text(p)], [Number(Value(d)), Text([])], [Number(Value(e)), Text([])]);
    } else {
      var u := t + RunLength(p[t..], true);
      assert u < |p|;
      KeyStep(p, d);
      KeyStep(p, e);
      LexDrop([Text(p[..t]), Number(Value(p[t..u]))], Key(p[u..] + d), Key(p[u..] + e));
      SamePrefixOrder(p[u..], d, e);
    }
  }

  lemma KeyOfTail(p: Bytes, d: Bytes)
    requires forall i :: 0 <= i < |p| ==> !IsDigit(p[i])
    requires AllDigits(d) && d != []
    ensures Key(p + d) == [Text(p), Number(Value(d)), Text([])]
  {
    hide Value, RunLength;
    RunLengthIs(p + d, false, |p|);
    assert (p + d)[|p|..] == d && (p + d)[..|p|] == p;
    RunLengthIs(d, true, |d|);
    KeyUnfold(p + d, |p|, |d|);
    assert (p + d)[|p|..|p| + |d|] == d && (p + d)[|p| + |d|..] == [];
    RunLengthIs([], false, 0);
    assert Key([]) == [Text([])];
  }

  lemma {:induction false} LexDrop(head: seq<Part>, a: seq<Part>, b: seq<Part>)
    requires Lex(PartLeq, head + a, head + b)
    ensures Lex(PartLeq, a, b)
  {
    if head == [] {
      assert head + a == a && head + b == b;
    } else {
      assert (head + a)[1..] == head[1..] + a && (head + b)[1..] == head[1..] + b;
      LexDrop(head[1..], a, b);
    }
  }

  // ---------------------------------------------------------------- folding

  /** Number of trailing digits: the second group of `(.*?)(\d+)`; 0 when the name does not match. */
  function TrailingDigits(name: Name): (k: nat)
    ensures k <= |name|
  {
    if name == [] || !IsDigit(name[|name| - 1]) then 0 else TrailingDigits(name[..|name| - 1]) + 1
  }

  /** The second group of `(.*?)(\d+)`, and the first. */
  function Tail(node: Name): Bytes {
    node[|node| - TrailingDigits(node)..]
  }

  function Prefix(node: Name): Bytes {
    node[..|node| - TrailingDigits(node)]
  }

  lemma {:induction false} TrailingAre(name: Name)
    ensures var n := |name| - TrailingDigits(name);
            (forall i :: n <= i < |name| ==> IsDigit(name[i])) && (n > 0 ==> !IsDigit(name[n - 1]))
  {
    hide IsDigit;
    if name != [] && IsDigit(name[|name| - 1]) {
      TrailingAre(name[..|name| - 1]);
    }
  }

  lemma PrefixAndTail(node: Name)
    ensures AllDigits(Tail(node)) && |Tail(node)| == TrailingDigits(node)
    ensures Prefix(node) + Tail(node) == node
    ensures Prefix(node) != [] ==> !IsDigit(Prefix(node)[|Prefix(node)| - 1])
  {
    hide IsDigit, TrailingDigits;
    TrailingAre(node);
  }

  /** The number in the second group. */
  function NodeNumber(node: Name): nat {
    PrefixAndTail(node);
    Value(Tail(node))
  }

  /** A name that ends in digits is its prefix followed by its number at its width. */
  lemma NameParts(node: Name)
    requires TrailingDigits(node) > 0
    ensures NodeNumber(node) < Pow10(TrailingDigits(node))
    ensures Format(NodeNumber(node), TrailingDigits(node)) == Tail(node)
  {
    PrefixAndTail(node);
    ValueBound(Tail(node));
    FormatValue(Tail(node));
  }

  /** A bucket is created with its first number. */
  type Numbers = s: seq<nat> | s != [] witness [0]

  datatype Bucket = Bucket(prefix: Bytes, width: nat, numbers: Numbers)

  datatype Folding = Folding(plain: seq<Name>, buckets: seq<Bucket>)

  function FindBucket(buckets: seq<Bucket>, prefix: Bytes, width: nat): (i: nat)
    ensures i <= |buckets|
    ensures i < |buckets| ==> buckets[i].prefix == prefix && buckets[i].width == width
    ensures forall k :: 0 <= k < i ==> buckets[k].prefix != prefix || buckets[k].width != width
  {
    if buckets == [] then 0
    else if buckets[0].prefix == prefix && buckets[0].width == width then 0
    else 1 + FindBucket(buckets[1..], prefix, width)
  }

  /** One round of the loop over the ordered names; `(.*?)(\d+)` does not match across a newline. */
  function AddNode(f: Folding, node: Name): Folding {
    var k := TrailingDigits(node);
    if k == 0 || NEWLINE in node then f.(plain := f.plain + [node]) else
      var prefix, number := Prefix(node), NodeNumber(node);
      var i := FindBucket(f.buckets, prefix, k);
      if i == |f.buckets|
      then f.(buckets := f.buckets + [Bucket(prefix, k, [number])])
      else f.(buckets := f.buckets[i := f.buckets[i].(numbers := f.buckets[i].numbers + [number])])
  }

  function FoldOrdered(ordered: seq<Name>): Folding {
    if ordered == [] then Folding([], [])
    else AddNode(FoldOrdered(ordered[..|ordered| - 1]), ordered[|ordered| - 1])
  }

  function NumberNames(prefix: Bytes, numbers: seq<nat>, width: nat): (names: seq<Name>)
    ensures |names| == |numbers| && forall i :: 0 <= i < |names| ==> names[i] == prefix + Format(numbers[i], width)
  {
    if numbers == [] then [] else [prefix + Format(numbers[0], width)] + NumberNames(prefix, numbers[1..], width)
  }

  function BucketNames(b: Bucket): seq<Name> {
    NumberNames(b.prefix, b.numbers, b.width)
  }

  function AllBucketNames(buckets: seq<Bucket>): seq<Name> {
    if buckets == [] then [] else BucketNames(buckets[0]) + AllBucketNames(buckets[1..])
  }

  /** The names a folding stands for, in the order its text lists them. */
  function Names(f: Folding): seq<Name> {
    f.plain + AllBucketNames(f.buckets)
  }

  lemma {:induction false} AllBucketNamesSplit(a: seq<Bucket>, b: seq<Bucket>)
    ensures AllBucketNames(a + b) == AllBucketNames(a) + AllBucketNames(b)
  {
    if a == [] {
      assert a + b == b;
    } else {
      assert (a + b)[1..] == a[1..] + b;
      AllBucketNamesSplit(a[1..], b);
    }
  }

  ghost predicate Ascending(s: seq<nat>) {
    forall i, j :: 0 <= i < j < |s| ==> s[i] < s[j]
  }

  ghost predicate GoodBucket(b: Bucket) {
    && b.width >= 1 && Ascending(b.numbers)
    && (b.prefix == [] || !IsDigit(b.prefix[|b.prefix| - 1]))
    && OPEN !in b.prefix && CLOSE !in b.prefix && COMMA !in b.prefix
    && forall n :: n in b.numbers ==> n < Pow10(b.width)
  }

  ghost predicate GoodFolding(f: Folding) {
    && (forall p :: p in f.plain ==> PlainName(p))
    && (forall b :: b in f.buckets ==> GoodBucket(b))
  }

  lemma AppendNumber(b: Bucket, number: nat)
    ensures BucketNames(b.(numbers := b.numbers + [number])) == BucketNames(b) + [b.prefix + Format(number, b.width)]
  {
  }

  lemma InsertMiddle(a: seq<Name>, c: seq<Name>, x: Name, r: seq<Name>)
    ensures multiset(a + ((c + [x]) + r)) == multiset(a + (c + r)) + multiset{x}
  {
    assert multiset((c + [x]) + r) == (multiset(c) + multiset{x}) + multiset(r);
    assert multiset(c + r) == multiset(c) + multiset(r);
    assert multiset((c + [x]) + r) == multiset(c + r) + multiset{x};
  }

  lemma ReplaceBucket(buckets: seq<Bucket>, i: nat, b: Bucket, name: Name)
    requires i < |buckets|
    requires BucketNames(b) == BucketNames(buckets[i]) + [name]
    ensures multiset(AllBucketNames(buckets[i := b])) == multiset(AllBucketNames(buckets)) + multiset{name}
  {
    hide BucketNames;
    var l, r, c := buckets[..i], buckets[i + 1..], buckets[i];
    assert buckets == l + ([c] + r) && buckets[i := b] == l + ([b] + r);
    TailOfAppend([c], r);
    TailOfAppend([b], r);
    assert [c][1..] + r == r && [b][1..] + r == r;
    AllBucketNamesSplit(l, [c] + r);
    AllBucketNamesSplit(l, [b] + r);
    InsertMiddle(AllBucketNames(l), BucketNames(c), name, AllBucketNames(r));
  }

  lemma AppendBucket(buckets: seq<Bucket>, b: Bucket)
    ensures AllBucketNames(buckets + [b]) == AllBucketNames(buckets) + BucketNames(b)
  {
    AllBucketNamesSplit(buckets, [b]);
    assert AllBucketNames([b]) == BucketNames(b) + AllBucketNames([]);
  }

  /** The bucket that takes a node gains exactly that node's name. */
  lemma BucketGains(b: Bucket, node: Name)
    requires Tail(node) != [] && b.prefix == Prefix(node) && b.width == TrailingDigits(node)
    ensures BucketNames(b.(numbers := b.numbers + [NodeNumber(node)])) == BucketNames(b) + [node]
  {
    PrefixAndTail(node);
    NameParts(node);
    hide Prefix, Tail, TrailingDigits, Format, NodeNumber, NumberNames;
    AppendNumber(b, NodeNumber(node));
  }

  lemma BucketStarts(node: Name)
    requires Tail(node) != []
    ensures BucketNames(Bucket(Prefix(node), TrailingDigits(node), [NodeNumber(node)])) == [node]
  {
    PrefixAndTail(node);
    NameParts(node);
    hide Prefix, Tail, TrailingDigits, Format, NodeNumber;
  }

  lemma AddToBuckets(f: Folding, node: Name)
    requires Tail(node) != [] && NEWLINE !in node
    ensures AddNode(f, node).plain == f.plain
    ensures multiset(AllBucketNames(AddNode(f, node).buckets)) == multiset(AllBucketNames(f.buckets)) + multiset{node}
  {
    var prefix, number, k := Prefix(node), NodeNumber(node), TrailingDigits(node);
    var i := FindBucket(f.buckets, prefix, k);
    assert k != 0;
    hide Prefix, Tail, TrailingDigits, NodeNumber, FindBucket, BucketNames, AllBucketNames;
    if i == |f.buckets| {
      var b := Bucket(prefix, k, [number]);
      AppendBucket(f.buckets, b);
      BucketStarts(node);
      assert AddNode(f, node).buckets == f.buckets + [b];
    } else {
      var b := f.buckets[i].(numbers := f.buckets[i].numbers + [number]);
      BucketGains(f.buckets[i], node);
      ReplaceBucket(f.buckets, i, b, node);
      assert AddNode(f, node).buckets == f.buckets[i := b];
    }
  }

  lemma NamesMultiset(f: Folding)
    ensures multiset(Names(f)) == multiset(f.plain) + multiset(AllBucketNames(f.buckets))
  {
  }

  lemma AddLeft(a: multiset<Name>, b: multiset<Name>, c: multiset<Name>)
    ensures (a + c) + b == (a + b) + c && a + (b + c) == (a + b) + c
  {
  }

  lemma AddNodeNames(f: Folding, node: Name)
    ensures multiset(Names(AddNode(f, node))) == multiset(Names(f)) + multiset{node}
  {
    NamesMultiset(f);
    NamesMultiset(AddNode(f, node));
    AddLeft(multiset(f.plain), multiset(AllBucketNames(f.buckets)), multiset{node});
    if Tail(node) != [] && NEWLINE !in node {
      AddToBuckets(f, node);
    }
  }

  lemma {:induction false} BucketNameIn(buckets: seq<Bucket>, i: nat, j: nat)
    requires i < |buckets| && j < |buckets[i].numbers|
    ensures buckets[i].prefix + Format(buckets[i].numbers[j], buckets[i].width) in AllBucketNames(buckets)
  {
    if i == 0 {
      assert BucketNames(buckets[0])[j] in BucketNames(buckets[0]);
    } else {
      BucketNameIn(buckets[1..], i - 1, j);
    }
  }

  lemma SmallerNumber(n: nat, node: Name)
    requires Tail(node) != [] && n < Pow10(|Tail(node)|)
    requires Prefix(node) + Format(n, |Tail(node)|) != node
    requires KeyLeq(Prefix(node) + Format(n, |Tail(node)|), node)
    ensures n < NodeNumber(node)
  {
    PrefixAndTail(node);
    hide KeyLeq, Pow10, TrailingDigits, Format, Value, Prefix, Tail;
    FormatPadded(n, |Tail(node)|);
    var e := Format(n, |Tail(node)|);
    assert e != Tail(node);
    SamePrefixOrder(Prefix(node), e, Tail(node));
    EqualDigits(e, Tail(node));
  }

  lemma LaterNumberLarger(f: Folding, i: nat, j: nat, node: Name)
    requires i < |f.buckets| && j < |f.buckets[i].numbers| && GoodBucket(f.buckets[i])
    requires node !in Names(f) && forall m :: m in Names(f) ==> KeyLeq(m, node)
    requires Tail(node) != []
    requires f.buckets[i].width == TrailingDigits(node) && f.buckets[i].prefix == Prefix(node)
    ensures f.buckets[i].numbers[j] < NodeNumber(node)
  {
    PrefixAndTail(node);
    hide KeyLeq, Format, Value, Pow10, TrailingDigits, AllBucketNames, Prefix, Tail, NodeNumber;
    BucketNameIn(f.buckets, i, j);
    assert f.buckets[i].numbers[j] in f.buckets[i].numbers;
    SmallerNumber(f.buckets[i].numbers[j], node);
  }

  lemma GrowBucket(b: Bucket, number: nat)
    requires GoodBucket(b) && number < Pow10(b.width)
    requires forall j :: 0 <= j < |b.numbers| ==> b.numbers[j] < number
    ensures GoodBucket(b.(numbers := b.numbers + [number]))
  {
    hide Pow10, IsDigit;
  }

  lemma SingletonBucket(prefix: Bytes, width: nat, number: nat)
    requires width >= 1 && number < Pow10(width)
    requires prefix == [] || !IsDigit(prefix[|prefix| - 1])
    requires OPEN !in prefix && CLOSE !in prefix && COMMA !in prefix
    ensures GoodBucket(Bucket(prefix, width, [number]))
  {
    hide Pow10, IsDigit;
    assert Ascending([number]);
  }

  lemma PrefixPlain(node: Name)
    requires PlainName(node)
    ensures OPEN !in Prefix(node) && CLOSE !in Prefix(node) && COMMA !in Prefix(node)
  {
    hide TrailingDigits;
    forall b | b in Prefix(node) ensures b in node {}
  }

  lemma NewBucket(node: Name)
    requires PlainName(node) && Tail(node) != []
    ensures GoodBucket(Bucket(Prefix(node), |Tail(node)|, [NodeNumber(node)]))
  {
    hide PlainName, Value, Format, Pow10, TrailingDigits, Prefix, Tail, GoodBucket, IsDigit;
    PrefixAndTail(node);
    NameParts(node);
    PrefixPlain(node);
    SingletonBucket(Prefix(node), |Tail(node)|, NodeNumber(node));
  }

  lemma AddNodeGood(f: Folding, node: Name)
    requires GoodFolding(f) && PlainName(node)
    requires node !in Names(f)
    requires forall m :: m in Names(f) ==> KeyLeq(m, node)
    ensures GoodFolding(AddNode(f, node))
  {
    hide KeyLeq, Format, Value, Pow10, TrailingDigits, AllBucketNames, Names, FindBucket, Ascending, GoodBucket;
    if Tail(node) != [] && NEWLINE !in node {
      PrefixAndTail(node);
      NameParts(node);
      NewBucket(node);
      var i := FindBucket(f.buckets, Prefix(node), TrailingDigits(node));
      if i < |f.buckets| {
        var b, number := f.buckets[i], NodeNumber(node);
        assert b in f.buckets;
        forall j | 0 <= j < |b.numbers| ensures b.numbers[j] < number {
          LaterNumberLarger(f, i, j, node);
        }
        GrowBucket(b, number);
      }
    }
  }

  /** What the loop builds from the sorted distinct names. */
  lemma {:induction false} FoldOrderedCorrect(ordered: seq<Name>)
    requires Sorted(KeyLeq, ordered) && Distinct(ordered)
    requires forall n :: n in ordered ==> PlainName(n)
    ensures GoodFolding(FoldOrdered(ordered))
    ensures multiset(Names(FoldOrdered(ordered))) == multiset(ordered)
  {
    if ordered != [] {
      var n := |ordered| - 1;
      var init, last := ordered[..n], ordered[n];
      assert ordered == init + [last];
      assert last in ordered;
      FoldOrderedCorrect(init);
      var f := FoldOrdered(init);
      forall m | m in Names(f) ensures m in init {
        assert m in multiset(Names(f));
      }
      AddNodeNames(f, last);
      AddNodeGood(f, last);
    }
  }

  predicate LeftAlone(name: Name) {
    name == [] || !IsDigit(name[|name| - 1]) || NEWLINE in name
  }

  ghost predicate ApartBuckets(buckets: seq<Bucket>) {
    forall i, j :: 0 <= i < j < |buckets| ==>
      buckets[i].prefix != buckets[j].prefix || buckets[i].width != buckets[j].width
  }

  /** No name that ends in a number is left alone, and no two buckets could be one. */
  ghost predicate FullyFolded(f: Folding) {
    (forall p :: p in f.plain ==> LeftAlone(p)) && ApartBuckets(f.buckets)
  }

  lemma NoNumber(name: Name)
    requires TrailingDigits(name) == 0
    ensures LeftAlone(name)
  {
    hide IsDigit;
  }

  lemma GrownApart(buckets: seq<Bucket>, i: nat, numbers: Numbers)
    requires ApartBuckets(buckets) && i < |buckets|
    ensures ApartBuckets(buckets[i := buckets[i].(numbers := numbers)])
  {
  }

  lemma NewApart(buckets: seq<Bucket>, prefix: Bytes, width: nat, numbers: Numbers)
    requires ApartBuckets(buckets) && FindBucket(buckets, prefix, width) == |buckets|
    ensures ApartBuckets(buckets + [Bucket(prefix, width, numbers)])
  {
  }

  /** Main result: names with one prefix and one number of digits always end up in one bucket. */
  lemma {:induction false} FoldedFully(ordered: seq<Name>)
    ensures FullyFolded(FoldOrdered(ordered))
  {
    hide NodeNumber, TrailingDigits, Prefix, FindBucket, LeftAlone, ApartBuckets;
    if ordered == [] {
      assert ApartBuckets([]) by { NoBuckets(); }
    } else {
      var f, node := FoldOrdered(ordered[..|ordered| - 1]), ordered[|ordered| - 1];
      FoldedFully(ordered[..|ordered| - 1]);
      var k, i := TrailingDigits(node), FindBucket(f.buckets, Prefix(node), TrailingDigits(node));
      if k == 0 {
        NoNumber(node);
      } else if NEWLINE in node {
        NewlineLeft(node);
      } else if i == |f.buckets| {
        NewApart(f.buckets, Prefix(node), k, [NodeNumber(node)]);
      } else {
        GrownApart(f.buckets, i, f.buckets[i].numbers + [NodeNumber(node)]);
      }
    }
  }

  lemma NoBuckets()
    ensures ApartBuckets([])
  {
  }

  lemma NewlineLeft(name: Name)
    requires NEWLINE in name
    ensures LeftAlone(name)
  {
  }

  // ---------------------------------------------------------------- runs and text

  datatype Run = Run(first: nat, last: nat)

  function RunsFrom(first: nat, previous: nat, rest: seq<nat>): seq<Run>
    decreases |rest|
  {
    if rest == [] then [Run(first, previous)]
    else if rest[0] == previous + 1 then RunsFrom(first, rest[0], rest[1..])
    else [Run(first, previous)] + RunsFrom(rest[0], rest[0], rest[1..])
  }

  function Runs(numbers: Numbers): seq<Run> {
    RunsFrom(numbers[0], numbers[0], numbers[1..])
  }

  function Interval(first: nat, last: nat): (s: seq<nat>)
    requires first <= last + 1
    ensures |s| == last + 1 - first
    ensures forall i :: 0 <= i < |s| ==> s[i] == first + i
  {
    seq(last + 1 - first, i requires 0 <= i => first + i)
  }

  function Flatten(runs: seq<Run>): seq<nat>
    requires forall r :: r in runs ==> r.first <= r.last
  {
    if runs == [] then [] else Interval(runs[0].first, runs[0].last) + Flatten(runs[1..])
  }

  /** The runs list exactly the numbers, and no two neighbouring runs could be merged. */
  ghost predicate MaximalRuns(runs: seq<Run>, numbers: seq<nat>) {
    && (forall r :: r in runs ==> r.first <= r.last)
    && Flatten(runs) == numbers
    && forall i :: 0 <= i < |runs| - 1 ==> runs[i].last + 1 < runs[i + 1].first
  }

  lemma OneRun(first: nat, previous: nat)
    requires first <= previous
    ensures MaximalRuns([Run(first, previous)], Interval(first, previous) + [])
  {
    var one: seq<Run>, none: seq<Run> := [Run(first, previous)], [];
    assert one[1..] == none && Flatten(none) == [];
  }

  /** A run in front of runs that start more than one number later. */
  lemma RunInFront(run: Run, tail: seq<Run>, numbers: seq<nat>)
    requires run.first <= run.last && MaximalRuns(tail, numbers) && (tail != [] ==> run.last + 1 < tail[0].first)
    ensures MaximalRuns([run] + tail, Interval(run.first, run.last) + numbers)
  {
    hide Interval;
    var runs := [run] + tail;
    FirstAndRest(run, tail);
    forall r | r in runs ensures r.first <= r.last { assert r == run || r in tail; }
    assert Flatten(runs) == Interval(run.first, run.last) + Flatten(tail);
    forall i | 0 <= i < |runs| - 1 ensures runs[i].last + 1 < runs[i + 1].first {
      if i > 0 { assert runs[i] == tail[i - 1] && runs[i + 1] == tail[i]; }
    }
  }

  lemma IntervalGrows(first: nat, previous: nat, rest: seq<nat>)
    requires first <= previous && rest != [] && rest[0] == previous + 1
    ensures Interval(first, rest[0]) + rest[1..] == Interval(first, previous) + rest
  {
  }

  lemma IntervalOfOne(rest: seq<nat>)
    requires rest != []
    ensures Interval(rest[0], rest[0]) + rest[1..] == rest
  {
  }

  lemma {:induction false} RunsFromMaximal(first: nat, previous: nat, rest: seq<nat>)
    requires first <= previous
    requires Ascending(rest) && (rest != [] ==> previous < rest[0])
    ensures MaximalRuns(RunsFrom(first, previous, rest), Interval(first, previous) + rest)
    ensures RunsFrom(first, previous, rest)[0].first == first
    decreases |rest|
  {
    hide Interval, MaximalRuns;
    if rest == [] {
      OneRun(first, previous);
    } else if rest[0] == previous + 1 {
      RunsFromMaximal(first, rest[0], rest[1..]);
      IntervalGrows(first, previous, rest);
    } else {
      RunsFromMaximal(rest[0], rest[0], rest[1..]);
      IntervalOfOne(rest);
      RunInFront(Run(first, previous), RunsFrom(rest[0], rest[0], rest[1..]), rest);
    }
  }

  /** The printed ranges of a bucket are its maximal runs. */
  lemma BucketRunsMaximal(numbers: Numbers)
    requires Ascending(numbers)
    ensures MaximalRuns(Runs(numbers), numbers)
  {
    RunsFromMaximal(numbers[0], numbers[0], numbers[1..]);
    assert Interval(numbers[0], numbers[0]) + numbers[1..] == numbers;
  }

  function RangeText(r: Run, width: nat): Bytes {
    if r.first == r.last then Format(r.first, width)
    else Format(r.first, width) + [DASH] + Format(r.last, width)
  }

  function RangeTexts(runs: seq<Run>, width: nat): (texts: seq<Bytes>)
    ensures |texts| == |runs|
  {
    if runs == [] then [] else [RangeText(runs[0], width)] + RangeTexts(runs[1..], width)
  }

  function Label(b: Bucket): Bytes {
    if |b.numbers| == 1 then b.prefix + Format(b.numbers[0], b.width)
    else b.prefix + [OPEN] + Join(RangeTexts(Runs(b.numbers), b.width), COMMA) + [CLOSE]
  }

  function Labels(buckets: seq<Bucket>): seq<Bytes> {
    if buckets == [] then [] else [Label(buckets[0])] + Labels(buckets[1..])
  }

  function FoldText(f: Folding): Bytes {
    Join(f.plain + Labels(f.buckets), COMMA)
  }

  // ---------------------------------------------------------------- splitting and expanding

  datatype NodeFileError = UnmatchedClosing | UnmatchedOpening | EmptyRange | DescendingRange
                         | UnsupportedItem | TooMany

  type Expansion = Result<seq<Name>, NodeFileError>

  /** `_split_top_level_commas` from the middle: `rest` unread, `part` the current piece. */
  function SplitFrom(rest: Bytes, part: Bytes, depth: nat): Result<seq<Bytes>, NodeFileError>
    decreases |rest|
  {
    if rest == [] then
      if depth != 0 then Err(UnmatchedOpening) else Ok(if part == [] then [] else [part])
    else if rest[0] == OPEN then SplitFrom(rest[1..], part + [OPEN], depth + 1)
    else if rest[0] == CLOSE then
      if depth == 0 then Err(UnmatchedClosing) else SplitFrom(rest[1..], part + [CLOSE], depth - 1)
    else if rest[0] == COMMA && depth == 0 then
      Prepend(if part == [] then [] else [part], SplitFrom(rest[1..], [], 0))
    else SplitFrom(rest[1..], part + [rest[0]], depth)
  }

  function Prepend(front: seq<Bytes>, r: Result<seq<Bytes>, NodeFileError>): Result<seq<Bytes>, NodeFileError> {
    if r.Ok? then Ok(front + r.value) else r
  }

  function SplitTopLevel(value: Bytes): Result<seq<Bytes>, NodeFileError> {
    SplitFrom(value, [], 0)
  }

  predicate IsWordByte(b: Byte) {
    IsDigit(b) || 65 <= b <= 90 || 97 <= b <= 122 || b == 95 || b == 46 || b == 37 || b == DASH
  }

  /** The two groups of `(\d+)-(\d+)`. */
  function RangeEnds(item: Bytes): (r: Option<(Bytes, Bytes)>)
    ensures r.Some? ==> AllDigits(r.value.0) && AllDigits(r.value.1)
  {
    var i := IndexOf(item, DASH);
    if i < |item| && i > 0 && i + 1 < |item| && AllDigits(item[..i]) && AllDigits(item[i + 1..])
    then Some((item[..i], item[i + 1..])) else None
  }

  function FormatAll(numbers: seq<nat>, width: nat): (names: seq<Name>)
    ensures |names| == |numbers|
  {
    seq(|numbers|, i requires 0 <= i < |numbers| => Format(numbers[i], width))
  }

  function ExpandItem(item: Bytes): Expansion {
    match RangeEnds(item)
    case Some(ends) =>
      var first, last := Value(ends.0), Value(ends.1);
      if last < first then Err(DescendingRange)
      else Ok(FormatAll(Interval(first, last), if |ends.0| > |ends.1| then |ends.0| else |ends.1|))
    case None =>
      if item != [] && forall k :: 0 <= k < |item| ==> IsWordByte(item[k]) then Ok([item]) else Err(UnsupportedItem)
  }

  function ExpandItems(items: seq<Bytes>, sofar: seq<Name>, maxNodes: int): Expansion
    decreases |items|
  {
    if items == [] then Ok(sofar) else
      match ExpandItem(items[0])
      case Err(e) => Err(e)
      case Ok(more) =>
        if |sofar + more| > maxNodes then Err(TooMany) else ExpandItems(items[1..], sofar + more, maxNodes)
  }

  function Combine(prefix: Bytes, choice: Bytes, tails: seq<Name>): (r: seq<Name>)
    ensures |r| == |tails|
  {
    seq(|tails|, i requires 0 <= i < |tails| => prefix + choice + tails[i])
  }

  function Product(prefix: Bytes, choices: seq<Name>, tails: seq<Name>): seq<Name> {
    if choices == [] then [] else Combine(prefix, choices[0], tails) + Product(prefix, choices[1..], tails)
  }

  /** `_expand_bracket_expression` */
  function Expand(expression: Bytes, maxNodes: int): Expansion
    decreases |expression|
  {
    var opening := IndexOf(expression, OPEN);
    if opening == |expression| then Ok([expression]) else
      var after := expression[opening + 1..];
      var closing := IndexOf(after, CLOSE);
      if closing == |after| then Err(UnmatchedOpening)
      else if closing == 0 then Err(EmptyRange)
      else Assemble(expression[..opening], ExpandItems(Split(after[..closing], COMMA), [], maxNodes),
                    Expand(after[closing + 1..], maxNodes), maxNodes)
  }

  /** Every choice with every expansion of what follows the bracket; the choices' error comes first. */
  function Assemble(prefix: Bytes, choices: Expansion, tails: Expansion, maxNodes: int): Expansion {
    if choices.Err? then choices
    else if tails.Err? then tails
    else
      var results := Product(prefix, choices.value, tails.value);
      if |results| > maxNodes then Err(TooMany) else Ok(results)
  }

  function ExpandParts(parts: seq<Bytes>, maxNodes: int): Expansion {
    if parts == [] then Ok([]) else
      match Expand(parts[0], maxNodes)
      case Err(e) => Err(e)
      case Ok(names) =>
        match ExpandParts(parts[1..], maxNodes)
        case Err(e) => Err(e)
        case Ok(more) => Ok(names + more)
  }

  /** Split at top-level commas, then expand every part in order. */
  function ExpandText(text: Bytes, maxNodes: int): Expansion {
    match SplitTopLevel(text)
    case Err(e) => Err(e)
    case Ok(parts) => ExpandParts(parts, maxNodes)
  }

  // ---------------------------------------------------------------- the round trip

  lemma {:induction false} SkipPlain(s: Bytes, rest: Bytes, part: Bytes, depth: nat)
    requires OPEN !in s && CLOSE !in s && (depth == 0 ==> COMMA !in s)
    ensures SplitFrom(s + rest, part, depth) == SplitFrom(rest, part + s, depth)
  {
    if s == [] {
      assert s + rest == rest && part + s == part;
    } else {
      assert s[0] in s;
      assert (s + rest)[1..] == s[1..] + rest;
      assert part + [s[0]] + s[1..] == part + s;
      SkipPlain(s[1..], rest, part + [s[0]], depth);
    }
  }

  ghost predicate Closed(text: Bytes) {
    text != [] && forall rest, part :: SplitFrom(text + rest, part, 0) == SplitFrom(rest, part + text, 0)
  }

  lemma PlainClosed(name: Name)
    requires PlainName(name)
    ensures Closed(name)
  {
    forall rest, part ensures SplitFrom(name + rest, part, 0) == SplitFrom(rest, part + name, 0) {
      SkipPlain(name, rest, part, 0);
    }
  }

  lemma BracketClosed(prefix: Bytes, inner: Bytes)
    requires OPEN !in prefix && CLOSE !in prefix && COMMA !in prefix
    requires OPEN !in inner && CLOSE !in inner
    ensures Closed(prefix + [OPEN] + inner + [CLOSE])
  {
    var text := prefix + [OPEN] + inner + [CLOSE];
    forall rest, part ensures SplitFrom(text + rest, part, 0) == SplitFrom(rest, part + text, 0) {
      var r1 := [OPEN] + inner + [CLOSE] + rest;
      assert text + rest == prefix + r1;
      SkipPlain(prefix, r1, part, 0);
      var r2 := [CLOSE] + rest;
      assert r1[1..] == inner + r2;
      SkipPlain(inner, r2, part + prefix + [OPEN], 1);
      assert r2[1..] == rest;
      assert part + prefix + [OPEN] + inner + [CLOSE] == part + text;
    }
  }

  lemma {:induction false} SplitClosed(labels: seq<Bytes>)
    requires forall l :: l in labels ==> Closed(l)
    ensures SplitTopLevel(Join(labels, COMMA)) == Ok(labels)
  {
    if labels != [] {
      var l := labels[0];
      assert l in labels;
      if |labels| == 1 {
        assert l + [] == l && [] + l == l;
        assert SplitFrom(l + [], [], 0) == SplitFrom([], [] + l, 0);
        assert labels == [l];
      } else {
        var rest := Join(labels[1..], COMMA);
        assert l + [COMMA] + rest == l + ([COMMA] + rest);
        assert [] + l == l;
        assert SplitFrom(l + ([COMMA] + rest), [], 0) == SplitFrom([COMMA] + rest, [] + l, 0);
        assert ([COMMA] + rest)[1..] == rest;
        SplitClosed(labels[1..]);
        assert [l] + labels[1..] == labels;
      }
    }
  }

  lemma DigitsAreWords(s: Bytes)
    requires AllDigits(s)
    ensures OPEN !in s && CLOSE !in s && COMMA !in s && DASH !in s
    ensures forall k :: 0 <= k < |s| ==> IsWordByte(s[k])
  {
    forall b | b in s ensures IsDigit(b) {
      var k :| 0 <= k < |s| && s[k] == b;
    }
  }

  lemma ExpandRange(r: Run, width: nat)
    requires width >= 1 && r.first <= r.last < Pow10(width)
    ensures ExpandItem(RangeText(r, width)) == Ok(FormatAll(Interval(r.first, r.last), width))
    ensures OPEN !in RangeText(r, width) && CLOSE !in RangeText(r, width) && COMMA !in RangeText(r, width)
    ensures RangeText(r, width) != []
  {
    hide Format, Value, Pow10;
    FormatPadded(r.first, width);
    FormatPadded(r.last, width);
    var a, b := Format(r.first, width), Format(r.last, width);
    DigitsAreWords(a);
    DigitsAreWords(b);
    var item := RangeText(r, width);
    if r.first == r.last {
      assert IndexOf(item, DASH) == |item|;
      assert FormatAll(Interval(r.first, r.last), width) == [item];
    } else {
      IndexOfAt(a, DASH, b);
      assert item[..|a|] == a && item[|a| + 1..] == b;
    }
  }

  lemma FormatAllAppend(a: seq<nat>, b: seq<nat>, width: nat)
    ensures FormatAll(a + b, width) == FormatAll(a, width) + FormatAll(b, width)
  {
  }

  lemma {:induction false} ExpandRanges(runs: seq<Run>, width: nat, sofar: seq<Name>, maxNodes: int)
    requires width >= 1 && forall r :: r in runs ==> r.first <= r.last < Pow10(width)
    requires |sofar| + |Flatten(runs)| <= maxNodes
    ensures ExpandItems(RangeTexts(runs, width), sofar, maxNodes) == Ok(sofar + FormatAll(Flatten(runs), width))
    ensures forall t :: t in RangeTexts(runs, width) ==> OPEN !in t && CLOSE !in t && COMMA !in t && t != []
    decreases |runs|
  {
    hide Format, Value, Pow10, RangeText, ExpandItem;
    if runs == [] {
      assert sofar + FormatAll([], width) == sofar;
    } else {
      assert runs[0] in runs;
      ExpandRange(runs[0], width);
      var here := Interval(runs[0].first, runs[0].last);
      ExpandRanges(runs[1..], width, sofar + FormatAll(here, width), maxNodes);
      FormatAllAppend(here, Flatten(runs[1..]), width);
      assert sofar + FormatAll(here, width) + FormatAll(Flatten(runs[1..]), width)
          == sofar + FormatAll(Flatten(runs), width);
      assert RangeTexts(runs, width)[1..] == RangeTexts(runs[1..], width);
    }
  }

  lemma {:induction false} ProductOne(prefix: Bytes, choices: seq<Name>)
    ensures |Product(prefix, choices, [[]])| == |choices|
    ensures forall i :: 0 <= i < |choices| ==> Product(prefix, choices, [[]])[i] == prefix + choices[i]
  {
    if choices != [] {
      ProductOne(prefix, choices[1..]);
      var one: seq<Name> := [[]];
      assert prefix + choices[0] + one[0] == prefix + choices[0];
      assert Combine(prefix, choices[0], one) == [prefix + choices[0]];
    }
  }

  lemma {:induction false} JoinAvoids(texts: seq<Bytes>, b: Byte)
    requires b != COMMA && forall t :: t in texts ==> b !in t
    ensures b !in Join(texts, COMMA)
  {
    if |texts| > 1 {
      assert texts[0] in texts;
      JoinAvoids(texts[1..], b);
    } else if |texts| == 1 {
      assert texts[0] in texts;
    }
  }

  lemma {:induction false} FlattenMember(runs: seq<Run>, r: Run)
    requires forall s :: s in runs ==> s.first <= s.last
    requires r in runs
    ensures r.last in Flatten(runs)
  {
    if r == runs[0] {
      var s := Interval(r.first, r.last);
      assert s[|s| - 1] == r.last;
    } else {
      FlattenMember(runs[1..], r);
    }
  }

  lemma ExpandSingle(b: Bucket, maxNodes: int)
    requires GoodBucket(b) && |b.numbers| == 1
    ensures Closed(Label(b))
    ensures Expand(Label(b), maxNodes) == Ok(BucketNames(b))
  {
    hide Format, Value, Pow10, Closed;
    var text := Label(b);
    assert b.numbers[0] in b.numbers;
    FormatPadded(b.numbers[0], b.width);
    DigitsAreWords(Format(b.numbers[0], b.width));
    assert BucketNames(b) == [text];
    assert IndexOf(text, OPEN) == |text|;
    PlainClosed(text);
  }

  /** Expanding `prefix[texts]`, with nothing after the bracket. */
  lemma ExpandOneBracket(prefix: Bytes, texts: seq<Bytes>, choices: seq<Name>, maxNodes: int)
    requires OPEN !in prefix && texts != []
    requires forall t :: t in texts ==> CLOSE !in t && COMMA !in t && t != []
    requires ExpandItems(texts, [], maxNodes) == Ok(choices) && |choices| <= maxNodes
    ensures Expand(prefix + [OPEN] + Join(texts, COMMA) + [CLOSE], maxNodes) == Ok(Product(prefix, choices, [[]]))
  {
    hide ExpandItems, Product;
    var inner := Join(texts, COMMA);
    var text := prefix + [OPEN] + inner + [CLOSE];
    JoinAvoids(texts, CLOSE);
    IndexOfAt(prefix, OPEN, inner + [CLOSE]);
    assert prefix + [OPEN] + (inner + [CLOSE]) == text;
    assert text[..|prefix|] == prefix;
    var after := text[|prefix| + 1..];
    assert after == inner + [CLOSE] + [];
    IndexOfAt(inner, CLOSE, []);
    assert texts[0] in texts;
    assert inner != [];
    SplitJoin(texts, COMMA);
    assert after[..|inner|] == inner && after[|inner| + 1..] == [];
    assert Expand([], maxNodes) == Ok([[]]);
    ProductOne(prefix, choices);
  }

  lemma ExpandSeveral(b: Bucket, maxNodes: int)
    requires GoodBucket(b) && 1 < |b.numbers| <= maxNodes
    ensures Closed(Label(b))
    ensures Expand(Label(b), maxNodes) == Ok(BucketNames(b))
  {
    hide Format, Value, Pow10, Closed, Expand, ExpandItems, Runs;
    BucketRunsMaximal(b.numbers);
    var runs := Runs(b.numbers);
    forall r | r in runs ensures r.first <= r.last < Pow10(b.width) { FlattenMember(runs, r); }
    assert runs != [];
    ExpandRanges(runs, b.width, [], maxNodes);
    var texts := RangeTexts(runs, b.width);
    assert texts != [] && texts[0] in texts;
    JoinAvoids(texts, OPEN);
    JoinAvoids(texts, CLOSE);
    BracketClosed(b.prefix, Join(texts, COMMA));
    var choices := FormatAll(b.numbers, b.width);
    assert [] + choices == choices;
    ExpandOneBracket(b.prefix, texts, choices, maxNodes);
    ProductOne(b.prefix, choices);
    assert Product(b.prefix, choices, [[]]) == BucketNames(b);
  }

  lemma {:induction false} ExpandPlain(plain: seq<Name>, rest: seq<Bytes>, maxNodes: int)
    requires forall p :: p in plain ==> PlainName(p)
    requires ExpandParts(rest, maxNodes).Ok?
    ensures ExpandParts(plain + rest, maxNodes) == Ok(plain + ExpandParts(rest, maxNodes).value)
  {
    hide Assemble, Split, ExpandItems;
    if plain == [] {
      assert plain + rest == rest;
      assert plain + ExpandParts(rest, maxNodes).value == ExpandParts(rest, maxNodes).value;
    } else {
      assert plain[0] in plain;
      assert (plain + rest)[1..] == plain[1..] + rest;
      ExpandPlain(plain[1..], rest, maxNodes);
      assert IndexOf(plain[0], OPEN) == |plain[0]|;
      assert Expand(plain[0], maxNodes) == Ok([plain[0]]);
      assert [plain[0]] + (plain[1..] + ExpandParts(rest, maxNodes).value) == plain + ExpandParts(rest, maxNodes).value;
    }
  }

  lemma {:induction false} ExpandLabels(buckets: seq<Bucket>, maxNodes: int)
    requires forall b :: b in buckets ==> GoodBucket(b)
    requires |AllBucketNames(buckets)| <= maxNodes
    ensures ExpandParts(Labels(buckets), maxNodes) == Ok(AllBucketNames(buckets))
    ensures forall l :: l in Labels(buckets) ==> Closed(l)
  {
    if buckets != [] {
      assert buckets[0] in buckets;
      if |buckets[0].numbers| == 1 { ExpandSingle(buckets[0], maxNodes); } else { ExpandSeveral(buckets[0], maxNodes); }
      ExpandLabels(buckets[1..], maxNodes);
      assert Labels(buckets)[1..] == Labels(buckets[1..]);
    }
  }

  /** Expanding the folded text gives back exactly the names it was folded from, in printing order. */
  lemma FoldExpandRoundTrip(f: Folding, maxNodes: int)
    requires GoodFolding(f) && |Names(f)| <= maxNodes
    ensures ExpandText(FoldText(f), maxNodes) == Ok(Names(f))
  {
    ExpandLabels(f.buckets, maxNodes);
    ExpandPlain(f.plain, Labels(f.buckets), maxNodes);
    forall l | l in f.plain + Labels(f.buckets) ensures Closed(l) {
      if l in f.plain { PlainClosed(l); }
    }
    SplitClosed(f.plain + Labels(f.buckets));
  }
}
