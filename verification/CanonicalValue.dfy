/** The nested normal form of static configuration values (`canonical_static_value`). */
module CanonicalValue {
  import opened Bytes
  import opened Ordering

  type Odd = m: int | m % 2 != 0 witness 1

  /** A finite floating-point number, each in one way: an odd number times a power of two, or one of the zeros. */
  datatype Float = Zero | NegativeZero | Finite(m: Odd, e: int)

  datatype Atom = Null | Bool(b: bool) | Int(i: int) | Real(x: Float) | Text(text: string)

  datatype Field = Field(key: string, value: Json)

  /** A JSON value; a Python dict is its fields in insertion order. */
  datatype Json = Leaf(atom: Atom) | Arr(items: seq<Json>) | Obj(fields: seq<Field>)

  ghost predicate DistinctKeys(fields: seq<Field>) {
    forall i, j :: 0 <= i < j < |fields| ==> fields[i].key != fields[j].key
  }

  /** Every dict has each key once. */
  ghost predicate Valid(v: Json) {
    match v
    case Leaf(_) => true
    case Arr(items) => forall x :: x in items ==> Valid(x)
    case Obj(fields) => DistinctKeys(fields) && forall f :: f in fields ==> Valid(f.value)
  }

  // ---------------------------------------------------------------- printing

  datatype Token = Token(rank: nat, text: string)

  const END := Token(7, "")

  function Unary(n: nat): string {
    seq(n, _ => 'i')
  }

  function IntText(i: int): string {
    if i < 0 then ['m'] + Unary(-i) else ['p'] + Unary(i)
  }

  function FloatText(x: Float): string {
    match x
    case Zero => "z"
    case NegativeZero => "n"
    case Finite(m, e) => "f" + IntText(m) + IntText(e)
  }

  function AtomToken(a: Atom): Token {
    match a
    case Null => Token(0, "")
    case Bool(b) => Token(1, if b then "true" else "false")
    case Int(i) => Token(2, IntText(i))
    case Real(x) => Token(2, FloatText(x))
    case Text(t) => Token(3, t)
  }

  lemma UnaryStops(m: nat, n: nat, r: string, s: string)
    requires Unary(m) + r == Unary(n) + s
    requires (r == [] || r[0] != 'i') && (s == [] || s[0] != 'i')
    ensures m == n && r == s
  {
    var p, q := Unary(m) + r, Unary(n) + s;
    assert m < |p| ==> p[m] != 'i';
    assert n < |q| ==> q[n] != 'i';
    assert (forall k :: 0 <= k < m ==> p[k] == 'i') && forall k :: 0 <= k < n ==> q[k] == 'i';
    assert p[m..] == r && q[n..] == s;
  }

  lemma IntTextStarts(i: int)
    ensures IntText(i) != [] && IntText(i)[0] == (if i < 0 then 'm' else 'p')
    ensures IntText(i)[1..] == Unary(if i < 0 then -i else i)
  {
    hide Unary;
  }

  lemma IntTextInjective(i: int, j: int, r: string, s: string)
    requires IntText(i) + r == IntText(j) + s
    requires (r == [] || r[0] != 'i') && (s == [] || s[0] != 'i')
    ensures i == j && r == s
  {
    hide IntText, Unary;
    IntTextStarts(i);
    IntTextStarts(j);
    var p, q := IntText(i) + r, IntText(j) + s;
    assert p[0] == IntText(i)[0] && q[0] == IntText(j)[0];
    assert p[1..] == IntText(i)[1..] + r && q[1..] == IntText(j)[1..] + s;
    UnaryStops(if i < 0 then -i else i, if j < 0 then -j else j, r, s);
  }

  lemma FiniteTextInjective(m: int, e: int, n: int, f: int)
    requires IntText(m) + IntText(e) == IntText(n) + IntText(f)
    ensures m == n && e == f
  {
    hide IntText;
    IntTextStarts(e);
    IntTextStarts(f);
    IntTextInjective(m, n, IntText(e), IntText(f));
    assert IntText(e) + [] == IntText(f) + [];
    IntTextInjective(e, f, [], []);
  }

  lemma FloatTextInjective(x: Float, y: Float)
    requires FloatText(x) == FloatText(y)
    ensures x == y
  {
    hide IntText;
    var p, q := FloatText(x), FloatText(y);
    assert p[0] == q[0];
    if x.Finite? && y.Finite? {
      assert p[1..] == IntText(x.m) + IntText(x.e) && q[1..] == IntText(y.m) + IntText(y.e);
      FiniteTextInjective(x.m, x.e, y.m, y.e);
    }
  }

  lemma AtomTokenInjective(a: Atom, b: Atom)
    requires AtomToken(a) == AtomToken(b)
    ensures a == b
  {
    hide IntText, FloatText;
    if a.Int? && b.Int? {
      assert IntText(a.i) + [] == IntText(b.i) + [];
      IntTextInjective(a.i, b.i, [], []);
    } else if a.Real? && b.Real? {
      FloatTextInjective(a.x, b.x);
    } else {
      IntOrFloat(a, b);
    }
  }

  lemma IntOrFloat(a: Atom, b: Atom)
    requires AtomToken(a) == AtomToken(b)
    ensures a.Int? == b.Int?
  {
    hide IntText;
    if a.Int? { IntTextStarts(a.i); }
    if b.Int? { IntTextStarts(b.i); }
    assert a.Int? ==> AtomToken(a).text[0] in ['m', 'p'];
    assert b.Int? ==> AtomToken(b).text[0] in ['m', 'p'];
    assert a.Real? ==> AtomToken(a).text[0] in ['z', 'n', 'f'];
    assert b.Real? ==> AtomToken(b).text[0] in ['z', 'n', 'f'];
  }

  /** The text of a value, its dicts printed in the order of their fields. */
  function Print(v: Json): (t: seq<Token>)
    ensures t != [] && t[0] != END
    decreases v, 1
  {
    match v
    case Leaf(a) => [AtomToken(a)]
    case Arr(items) => [Token(4, "")] + PrintItems(items) + [END]
    case Obj(fields) => [Token(5, "")] + PrintFields(fields) + [END]
  }

  function PrintItems(items: seq<Json>): seq<Token>
    decreases items, 0
  {
    if items == [] then [] else Print(items[0]) + PrintItems(items[1..])
  }

  function PrintFields(fields: seq<Field>): seq<Token>
    decreases fields, 0
  {
    if fields == [] then [] else [Token(6, fields[0].key)] + Print(fields[0].value) + PrintFields(fields[1..])
  }

  /** Two texts with something behind them that agree have values of the same kind. */
  lemma SameKind(x: Json, y: Json, r: seq<Token>, s: seq<Token>)
    requires Print(x) + r == Print(y) + s
    ensures x.Leaf? == y.Leaf? && x.Arr? == y.Arr? && x.Obj? == y.Obj?
  {
    hide Print;
    var p, q := Print(x) + r, Print(y) + s;
    assert p[0] == Print(x)[0] && q[0] == Print(y)[0];
    KindOf(x);
    KindOf(y);
  }

  lemma PrintShape(v: Json, r: seq<Token>)
    ensures v.Leaf? ==> (Print(v) + r)[0] == AtomToken(v.atom) && (Print(v) + r)[1..] == r
    ensures v.Arr? ==> (Print(v) + r)[1..] == PrintItems(v.items) + ([END] + r)
    ensures v.Obj? ==> (Print(v) + r)[1..] == PrintFields(v.fields) + ([END] + r)
  {
    hide AtomToken, PrintItems, PrintFields;
    match v {
      case Leaf(a) =>
      case Arr(items) => Shape(Token(4, ""), PrintItems(items), r);
      case Obj(fields) => Shape(Token(5, ""), PrintFields(fields), r);
    }
  }

  lemma Shape(open: Token, t: seq<Token>, r: seq<Token>)
    ensures ([open] + t + [END] + r)[1..] == t + ([END] + r)
  {
  }

  /** No text is a proper prefix of another one, so texts can be told apart inside longer texts. */
  lemma {:induction false} PrintInjective(x: Json, y: Json, r: seq<Token>, s: seq<Token>)
    requires Print(x) + r == Print(y) + s
    ensures x == y && r == s
    decreases x, 1
  {
    hide AtomToken, Print, PrintItems, PrintFields;
    SameKind(x, y, r, s);
    PrintShape(x, r);
    PrintShape(y, s);
    match x {
      case Leaf(a) => AtomTokenInjective(a, y.atom);
      case Arr(items) => PrintItemsInjective(items, y.items, r, s);
      case Obj(fields) => PrintFieldsInjective(fields, y.fields, r, s);
    }
  }

  lemma ItemsHead(xs: seq<Json>, r: seq<Token>)
    requires r != [] && r[0] == END
    ensures (PrintItems(xs) + r)[0] == END <==> xs == []
  {
    hide Print;
  }

  lemma FieldsHead(xs: seq<Field>, r: seq<Token>)
    requires r != [] && r[0] == END
    ensures (PrintFields(xs) + r)[0] == END <==> xs == []
  {
    hide Print;
  }

  lemma KindOf(x: Json)
    ensures x.Leaf? <==> Print(x)[0].rank <= 3
    ensures x.Arr? <==> Print(x)[0].rank == 4
    ensures x.Obj? <==> Print(x)[0].rank == 5
  {
  }

  lemma {:induction false} PrintItemsInjective(xs: seq<Json>, ys: seq<Json>, r: seq<Token>, s: seq<Token>)
    requires PrintItems(xs) + ([END] + r) == PrintItems(ys) + ([END] + s)
    ensures xs == ys && r == s
    decreases xs, 0
  {
    hide Print;
    var p, q := PrintItems(xs) + ([END] + r), PrintItems(ys) + ([END] + s);
    ItemsHead(xs, [END] + r);
    ItemsHead(ys, [END] + s);
    if xs == [] {
      assert p[1..] == r && q[1..] == s;
    } else {
      var p1, q1 := PrintItems(xs[1..]) + ([END] + r), PrintItems(ys[1..]) + ([END] + s);
      Regroup(Print(xs[0]), PrintItems(xs[1..]), [END] + r);
      Regroup(Print(ys[0]), PrintItems(ys[1..]), [END] + s);
      PrintInjective(xs[0], ys[0], p1, q1);
      PrintItemsInjective(xs[1..], ys[1..], r, s);
      assert xs == [xs[0]] + xs[1..] && ys == [ys[0]] + ys[1..];
    }
  }

  lemma {:induction false} PrintFieldsInjective(xs: seq<Field>, ys: seq<Field>, r: seq<Token>, s: seq<Token>)
    requires PrintFields(xs) + ([END] + r) == PrintFields(ys) + ([END] + s)
    ensures xs == ys && r == s
    decreases xs, 0
  {
    hide Print;
    var p, q := PrintFields(xs) + ([END] + r), PrintFields(ys) + ([END] + s);
    FieldsHead(xs, [END] + r);
    FieldsHead(ys, [END] + s);
    if xs == [] {
      assert p[1..] == r && q[1..] == s;
    } else {
      var p1, q1 := PrintFields(xs[1..]) + ([END] + r), PrintFields(ys[1..]) + ([END] + s);
      assert p[0] == Token(6, xs[0].key) && q[0] == Token(6, ys[0].key);
      assert p[1..] == Print(xs[0].value) + p1 && q[1..] == Print(ys[0].value) + q1;
      PrintInjective(xs[0].value, ys[0].value, p1, q1);
      PrintFieldsInjective(xs[1..], ys[1..], r, s);
      assert xs == [xs[0]] + xs[1..] && ys == [ys[0]] + ys[1..];
    }
  }

  // ---------------------------------------------------------------- the normal form

  predicate KeyLeq(a: Field, b: Field) {
    TextLeq(a.key, b.key)
  }

  function SortKeys(v: Json): Json
    decreases v, 1
  {
    match v
    case Leaf(_) => v
    case Arr(items) => Arr(SortKeysAll(items))
    case Obj(fields) => Obj(Sort(KeyLeq, SortKeysIn(fields)))
  }

  function SortKeysAll(items: seq<Json>): (r: seq<Json>)
    ensures |r| == |items| && forall i :: 0 <= i < |items| ==> r[i] == SortKeys(items[i])
    decreases items, 0
  {
    if items == [] then [] else [SortKeys(items[0])] + SortKeysAll(items[1..])
  }

  function SortKeysIn(fields: seq<Field>): (r: seq<Field>)
    ensures |r| == |fields| && forall i :: 0 <= i < |fields| ==> r[i] == Field(fields[i].key, SortKeys(fields[i].value))
    decreases fields, 0
  {
    if fields == [] then [] else [Field(fields[0].key, SortKeys(fields[0].value))] + SortKeysIn(fields[1..])
  }

  /** json.dumps(v, sort_keys=True) as text, of which only this law is used: it tells values apart up to key order. */
  type Dump = Json -> string

  ghost predicate Lawful(d: Dump) {
    forall x, y :: d(x) == d(y) ==> SortKeys(x) == SortKeys(y)
  }

  /** The order of the dumped texts. */
  function By(d: Dump): (Json, Json) -> bool {
    (a, b) => TextLeq(d(a), d(b))
  }

  /** `canonical_static_value` */
  function Canonical(d: Dump, v: Json): Json
    decreases v, 1
  {
    match v
    case Leaf(_) => v
    case Arr(items) => Arr(Sort(By(d), CanonicalAll(d, items)))
    case Obj(fields) => Obj(Sort(KeyLeq, CanonicalIn(d, fields)))
  }

  function CanonicalAll(d: Dump, items: seq<Json>): (r: seq<Json>)
    ensures |r| == |items| && forall i :: 0 <= i < |items| ==> r[i] == Canonical(d, items[i])
    decreases items, 0
  {
    if items == [] then [] else [Canonical(d, items[0])] + CanonicalAll(d, items[1..])
  }

  function CanonicalIn(d: Dump, fields: seq<Field>): (r: seq<Field>)
    ensures |r| == |fields| && forall i :: 0 <= i < |fields| ==>
              r[i] == Field(fields[i].key, Canonical(d, fields[i].value))
    decreases fields, 0
  {
    if fields == [] then [] else [Field(fields[0].key, Canonical(d, fields[0].value))] + CanonicalIn(d, fields[1..])
  }

  lemma DumpsOrder(d: Dump)
    ensures TotalPreorder(By(d))
  {
    hide TextLeq;
    TextOrder();
  }

  lemma KeyOrder()
    ensures TotalPreorder(KeyLeq)
  {
    hide TextLeq;
    TextOrder();
  }

  // ---------------------------------------------------------------- equality up to order

  /** Equal up to reordering of every list, and of the fields of every dict, at every depth. */
  ghost predicate Same(x: Json, y: Json)
    decreases x, 1
  {
    match x
    case Leaf(_) => x == y
    case Arr(items) => y.Arr? && SameItems(items, y.items)
    case Obj(fields) => y.Obj? && SameFields(fields, y.fields)
  }

  /** Some reordering of `ys` is pairwise the same as `xs`. */
  ghost predicate SameItems(xs: seq<Json>, ys: seq<Json>)
    decreases xs, 0
  {
    if xs == [] then ys == []
    else exists j :: 0 <= j < |ys| && Same(xs[0], ys[j]) && SameItems(xs[1..], ys[..j] + ys[j + 1..])
  }

  /** Both dicts have the same keys, with the same values. */
  ghost predicate SameFields(xs: seq<Field>, ys: seq<Field>)
    decreases xs, 0
  {
    && (forall g :: g in ys ==> HasKey(xs, g.key))
    && (forall f :: f in xs ==> HasSame(f, ys))
  }

  predicate HasKey(fields: seq<Field>, key: string) {
    exists f :: f in fields && f.key == key
  }

  ghost predicate HasSame(f: Field, ys: seq<Field>)
    decreases f, 0
  {
    exists g :: g in ys && f.key == g.key && Same(f.value, g.value)
  }

  // ---------------------------------------------------------------- normal forms are fixed points

  /** Sorting keys or normalising again changes nothing. */
  ghost predicate Normal(d: Dump, v: Json) {
    SortKeys(v) == v && Canonical(d, v) == v
  }

  lemma NormalItems(d: Dump, items: seq<Json>)
    requires forall x :: x in items ==> Normal(d, x)
    ensures SortKeysAll(items) == items && CanonicalAll(d, items) == items
  {
    hide SortKeys, Canonical;
    forall i | 0 <= i < |items| ensures SortKeys(items[i]) == items[i] && Canonical(d, items[i]) == items[i] {
      assert items[i] in items;
    }
  }

  lemma NormalFields(d: Dump, fields: seq<Field>)
    requires forall f :: f in fields ==> Normal(d, f.value)
    ensures SortKeysIn(fields) == fields && CanonicalIn(d, fields) == fields
  {
    hide SortKeys, Canonical;
    forall i | 0 <= i < |fields|
      ensures SortKeys(fields[i].value) == fields[i].value && Canonical(d, fields[i].value) == fields[i].value
    {
      assert fields[i] in fields;
    }
  }

  /** A list of normal items in sorted order is normal. */
  lemma NormalArr(d: Dump, items: seq<Json>)
    requires forall x :: x in items ==> Normal(d, x)
    ensures Normal(d, Arr(Sort(By(d), items)))
  {
    hide By, Normal;
    var sorted := Sort(By(d), items);
    SortKeepsElements(By(d), items);
    NormalItems(d, sorted);
    DumpsOrder(d);
    SortSorted(By(d), items);
    SortIdempotent(By(d), sorted);
    ArrIsNormal(d, sorted);
  }

  lemma ArrIsNormal(d: Dump, items: seq<Json>)
    requires SortKeysAll(items) == items && CanonicalAll(d, items) == items && Sort(By(d), items) == items
    ensures Normal(d, Arr(items))
  {
    hide By, Sort, SortKeysAll, CanonicalAll;
  }

  lemma NormalObj(d: Dump, fields: seq<Field>)
    requires forall f :: f in fields ==> Normal(d, f.value)
    ensures Normal(d, Obj(Sort(KeyLeq, fields)))
  {
    hide KeyLeq, Normal;
    var sorted := Sort(KeyLeq, fields);
    SortKeepsElements(KeyLeq, fields);
    NormalFields(d, sorted);
    KeyOrder();
    SortSorted(KeyLeq, fields);
    SortIdempotent(KeyLeq, sorted);
    ObjIsNormal(d, sorted);
  }

  lemma ObjIsNormal(d: Dump, fields: seq<Field>)
    requires SortKeysIn(fields) == fields && CanonicalIn(d, fields) == fields && Sort(KeyLeq, fields) == fields
    ensures Normal(d, Obj(fields))
  {
    hide KeyLeq, Sort, SortKeysIn, CanonicalIn;
  }

  /** Main result: the function is idempotent, and its result is unchanged by key sorting. */
  lemma {:induction false} CanonicalIsNormal(d: Dump, v: Json)
    ensures Normal(d, Canonical(d, v))
    decreases v, 1
  {
    hide Normal, Sort, By, KeyLeq;
    match v {
      case Leaf(_) => LeafIsNormal(d, v);
      case Arr(items) =>
        CanonicalItemsNormal(d, items);
        NormalArr(d, CanonicalAll(d, items));
      case Obj(fields) =>
        CanonicalFieldsNormal(d, fields);
        NormalObj(d, CanonicalIn(d, fields));
    }
  }

  lemma LeafIsNormal(d: Dump, v: Json)
    requires v.Leaf?
    ensures Normal(d, v)
  {
  }

  lemma {:induction false} CanonicalItemsNormal(d: Dump, items: seq<Json>)
    ensures forall x :: x in CanonicalAll(d, items) ==> Normal(d, x)
    decreases items, 0
  {
    hide Normal, Canonical;
    if items != [] {
      CanonicalIsNormal(d, items[0]);
      CanonicalItemsNormal(d, items[1..]);
    }
  }

  lemma {:induction false} CanonicalFieldsNormal(d: Dump, fields: seq<Field>)
    ensures forall f :: f in CanonicalIn(d, fields) ==> Normal(d, f.value)
    decreases fields, 0
  {
    hide Normal, Canonical;
    if fields != [] {
      CanonicalIsNormal(d, fields[0].value);
      CanonicalFieldsNormal(d, fields[1..]);
    }
  }

  /** Normal values with the same dumped text are the same value: the sort key is injective where it is used. */
  lemma DumpsInjective(d: Dump, x: Json, y: Json)
    requires Lawful(d) && Normal(d, x) && Normal(d, y) && d(x) == d(y)
    ensures x == y
  {
    hide SortKeys, Canonical;
  }

  lemma DumpsAntisymmetric(d: Dump, items: seq<Json>)
    requires Lawful(d) && forall x :: x in items ==> Normal(d, x)
    ensures AntisymmetricOn(By(d), items)
  {
    hide Normal, TextLeq, Lawful;
    TextOrder();
    forall x, y | x in items && y in items && By(d)(x, y) && By(d)(y, x) ensures x == y {
      DumpsInjective(d, x, y);
    }
  }

  lemma KeyAntisymmetric(fields: seq<Field>)
    requires DistinctKeys(fields)
    ensures AntisymmetricOn(KeyLeq, fields)
  {
    hide TextLeq;
    TextOrder();
    forall f, g | f in fields && g in fields && KeyLeq(f, g) && KeyLeq(g, f) ensures f == g {
      assert f.key == g.key;
    }
  }

  // ---------------------------------------------------------------- the normal form decides equality up to order

  function RemoveAt(ys: seq<Json>, j: nat): (r: seq<Json>)
    requires j < |ys|
    ensures |r| == |ys| - 1
  {
    ys[..j] + ys[j + 1..]
  }

  lemma CanonicalRest(d: Dump, ys: seq<Json>, j: nat)
    requires j < |ys|
    ensures CanonicalAll(d, RemoveAt(ys, j)) == CanonicalAll(d, ys)[..j] + CanonicalAll(d, ys)[j + 1..]
  {
    hide Canonical, CanonicalAll;
    CanonicalAppend(d, ys[..j], ys[j + 1..]);
    CanonicalFront(d, ys, j);
    CanonicalBack(d, ys, j + 1);
  }

  lemma RestWithin(ys: seq<Json>, j: nat)
    requires j < |ys|
    ensures forall y :: y in RemoveAt(ys, j) ==> y in ys
  {
  }

  lemma CanonicalAppend(d: Dump, a: seq<Json>, b: seq<Json>)
    ensures CanonicalAll(d, a + b) == CanonicalAll(d, a) + CanonicalAll(d, b)
  {
    hide Canonical, CanonicalAll;
  }

  lemma CanonicalFront(d: Dump, ys: seq<Json>, j: nat)
    requires j <= |ys|
    ensures CanonicalAll(d, ys[..j]) == CanonicalAll(d, ys)[..j]
  {
    hide Canonical, CanonicalAll;
  }

  lemma CanonicalBack(d: Dump, ys: seq<Json>, j: nat)
    requires j <= |ys|
    ensures CanonicalAll(d, ys[j..]) == CanonicalAll(d, ys)[j..]
  {
    hide Canonical, CanonicalAll;
  }

  lemma RemoveOne(d: Dump, ys: seq<Json>, j: nat)
    requires j < |ys|
    ensures multiset(CanonicalAll(d, ys)) == multiset(CanonicalAll(d, RemoveAt(ys, j))) + multiset{Canonical(d, ys[j])}
  {
    hide Canonical, CanonicalAll, RemoveAt;
    CanonicalRest(d, ys, j);
    RemoveCounts(CanonicalAll(d, ys), j);
  }

  /** Main result: two values have equal normal forms iff they are equal up to reordering at every depth. */
  lemma {:induction false} CanonicalDecides(d: Dump, x: Json, y: Json)
    requires Lawful(d) && Valid(x) && Valid(y)
    ensures Canonical(d, x) == Canonical(d, y) <==> Same(x, y)
    decreases x, 1
  {
    hide Sort, By, Lawful, KeyLeq, CanonicalAll, CanonicalIn, SameItems, SameFields;
    match x {
      case Leaf(_) =>
      case Arr(items) =>
        if y.Arr? {
          ItemsDecide(d, items, y.items);
          CanonicalItemsNormal(d, items);
          DumpsAntisymmetric(d, CanonicalAll(d, items));
          DumpsOrder(d);
          SortEqual(By(d), CanonicalAll(d, items), CanonicalAll(d, y.items));
        }
      case Obj(fields) =>
        if y.Obj? {
          FieldsDecide(d, fields, y.fields);
          SameKeysDistinct(d, fields);
          KeyAntisymmetric(CanonicalIn(d, fields));
          KeyOrder();
          SortEqual(KeyLeq, CanonicalIn(d, fields), CanonicalIn(d, y.fields));
        }
    }
  }

  lemma SameKeysDistinct(d: Dump, fields: seq<Field>)
    requires DistinctKeys(fields)
    ensures DistinctKeys(CanonicalIn(d, fields)) && Distinct(CanonicalIn(d, fields))
  {
    hide Canonical;
  }

  lemma {:induction false} ItemsDecide(d: Dump, xs: seq<Json>, ys: seq<Json>)
    requires Lawful(d) && (forall x :: x in xs ==> Valid(x)) && forall y :: y in ys ==> Valid(y)
    ensures multiset(CanonicalAll(d, xs)) == multiset(CanonicalAll(d, ys)) <==> SameItems(xs, ys)
    decreases xs, 0
  {
    hide Lawful, Canonical, Valid, Same, CanonicalAll;
    var cx, cy := CanonicalAll(d, xs), CanonicalAll(d, ys);
    assert |cx| == |xs| && |cy| == |ys|;
    if xs == [] {
      assert cx == [];
      assert |multiset(cy)| == |cy|;
    } else {
      if multiset(cx) == multiset(cy) {
        var j := FirstIn(cx, cy);
        assert cy[j] == Canonical(d, ys[j]) && cx[0] == Canonical(d, xs[0]);
        ItemsStep(d, xs, ys, j);
      }
      if SameItems(xs, ys) {
        var j :| 0 <= j < |ys| && Same(xs[0], ys[j]) && SameItems(xs[1..], ys[..j] + ys[j + 1..]);
        ItemsStep(d, xs, ys, j);
      }
    }
  }

  lemma FirstIn(a: seq<Json>, b: seq<Json>) returns (j: nat)
    requires a != [] && multiset(a) == multiset(b)
    ensures j < |b| && b[j] == a[0]
  {
    assert a[0] in multiset(a);
    assert a[0] in b;
    j :| 0 <= j < |b| && b[j] == a[0];
  }

  lemma {:induction false} ItemsStep(d: Dump, xs: seq<Json>, ys: seq<Json>, j: nat)
    requires Lawful(d) && (forall x :: x in xs ==> Valid(x)) && forall y :: y in ys ==> Valid(y)
    requires xs != [] && j < |ys|
    ensures Canonical(d, xs[0]) == Canonical(d, ys[j]) <==> Same(xs[0], ys[j])
    ensures Canonical(d, xs[0]) == Canonical(d, ys[j]) ==>
              (multiset(CanonicalAll(d, xs)) == multiset(CanonicalAll(d, ys)) <==> SameItems(xs[1..], RemoveAt(ys, j)))
    decreases xs, 0, 0
  {
    hide Lawful, Canonical, Valid, Same, SameItems;
    assert xs[0] in xs && ys[j] in ys;
    CanonicalDecides(d, xs[0], ys[j]);
    RemoveOne(d, ys, j);
    RestWithin(ys, j);
    ItemsDecide(d, xs[1..], RemoveAt(ys, j));
    assert CanonicalAll(d, xs) == [Canonical(d, xs[0])] + CanonicalAll(d, xs[1..]);
    Cancel(multiset(CanonicalAll(d, xs[1..])), multiset(CanonicalAll(d, RemoveAt(ys, j))), Canonical(d, xs[0]));
  }

  lemma Cancel(a: multiset<Json>, b: multiset<Json>, x: Json)
    ensures multiset{x} + a == b + multiset{x} <==> a == b
  {
    assert (multiset{x} + a) - multiset{x} == a && (b + multiset{x}) - multiset{x} == b;
  }

  /** A field of `ys` has the key and the normal form of `f` iff one has its key and the same value. */
  lemma {:induction false} FieldDecides(d: Dump, f: Field, ys: seq<Field>)
    requires Lawful(d) && Valid(f.value) && forall g :: g in ys ==> Valid(g.value)
    ensures Field(f.key, Canonical(d, f.value)) in CanonicalIn(d, ys) <==> HasSame(f, ys)
    decreases f, 2
  {
    hide Lawful, Canonical, Valid, Same;
    var c := Field(f.key, Canonical(d, f.value));
    if c in CanonicalIn(d, ys) {
      var j :| 0 <= j < |ys| && CanonicalIn(d, ys)[j] == c;
      assert ys[j] in ys;
      CanonicalDecides(d, f.value, ys[j].value);
    }
    if HasSame(f, ys) {
      var g :| g in ys && f.key == g.key && Same(f.value, g.value);
      CanonicalDecides(d, f.value, g.value);
      FieldIn(d, ys, g);
    }
  }

  lemma {:induction false} FieldsDecide(d: Dump, xs: seq<Field>, ys: seq<Field>)
    requires Lawful(d) && DistinctKeys(xs) && DistinctKeys(ys)
    requires (forall f :: f in xs ==> Valid(f.value)) && forall g :: g in ys ==> Valid(g.value)
    ensures multiset(CanonicalIn(d, xs)) == multiset(CanonicalIn(d, ys)) <==> SameFields(xs, ys)
    decreases xs, 3
  {
    hide Lawful, Canonical, Valid, Same, HasSame, HasKey, CanonicalIn;
    var cx, cy := CanonicalIn(d, xs), CanonicalIn(d, ys);
    forall f | f in xs ensures Field(f.key, Canonical(d, f.value)) in cy <==> HasSame(f, ys) {
      FieldDecides(d, f, ys);
    }
    SameKeysDistinct(d, xs);
    SameKeysDistinct(d, ys);
    if multiset(cx) == multiset(cy) {
      SameCountsDistinct(cx, cy);
      forall f | f in xs ensures HasSame(f, ys) { FieldIn(d, xs, f); }
      forall g | g in ys ensures HasKey(xs, g.key) { KeyShared(d, xs, g, ys); }
    }
    if SameFields(xs, ys) {
      forall c | c in cx ensures c in cy { var f := FieldOf(d, xs, c); }
      forall c | c in cy ensures c in cx { BackToField(d, xs, ys, c); }
      DistinctSameElements(cx, cy);
    }
  }

  lemma KeyShared(d: Dump, xs: seq<Field>, g: Field, ys: seq<Field>)
    requires g in ys && forall c :: c in CanonicalIn(d, xs) <==> c in CanonicalIn(d, ys)
    ensures HasKey(xs, g.key)
  {
    hide Canonical, CanonicalIn;
    FieldIn(d, ys, g);
    var f := FieldOf(d, xs, Field(g.key, Canonical(d, g.value)));
  }

  lemma FieldIn(d: Dump, fields: seq<Field>, f: Field)
    requires f in fields
    ensures Field(f.key, Canonical(d, f.value)) in CanonicalIn(d, fields)
  {
    hide Canonical;
    var i :| 0 <= i < |fields| && fields[i] == f;
    assert CanonicalIn(d, fields)[i] == Field(f.key, Canonical(d, f.value));
  }

  lemma FieldOf(d: Dump, fields: seq<Field>, c: Field) returns (f: Field)
    requires c in CanonicalIn(d, fields)
    ensures f in fields && c == Field(f.key, Canonical(d, f.value))
  {
    hide Canonical;
    var i :| 0 <= i < |fields| && CanonicalIn(d, fields)[i] == c;
    f := fields[i];
  }

  /** The keys agree and are distinct, so a normal field of `ys` comes from the field of `xs` with its key. */
  lemma BackToField(d: Dump, xs: seq<Field>, ys: seq<Field>, c: Field)
    requires DistinctKeys(ys) && c in CanonicalIn(d, ys)
    requires forall g :: g in ys ==> HasKey(xs, g.key)
    requires forall e :: e in CanonicalIn(d, xs) ==> e in CanonicalIn(d, ys)
    ensures c in CanonicalIn(d, xs)
  {
    hide Canonical, CanonicalIn, HasKey;
    var g := FieldOf(d, ys, c);
    var f := KeyHolder(xs, g.key);
    FieldIn(d, xs, f);
    var h := FieldOf(d, ys, Field(f.key, Canonical(d, f.value)));
    assert h == g;
  }

  lemma KeyHolder(fields: seq<Field>, key: string) returns (f: Field)
    requires HasKey(fields, key)
    ensures f in fields && f.key == key
  {
    f :| f in fields && f.key == key;
  }

  // ---------------------------------------------------------------- the law can be met

  /** The characters of a text, each behind a mark. */
  function Marked(text: string): string {
    if text == [] then [] else ['c', text[0]] + Marked(text[1..])
  }

  /** A token as text: its rank in unary, then its marked characters. */
  function TokenText(rank: nat, text: string): string {
    if rank > 0 then ['a'] + TokenText(rank - 1, text) else ['b'] + Marked(text) + ['d']
  }

  function TextOf(tokens: seq<Token>): string {
    if tokens == [] then [] else TokenText(tokens[0].rank, tokens[0].text) + TextOf(tokens[1..])
  }

  lemma {:induction false} MarkedInjective(t: string, u: string, r: string, s: string)
    requires Marked(t) + (['d'] + r) == Marked(u) + (['d'] + s)
    ensures t == u && r == s
  {
    var p, q := Marked(t) + (['d'] + r), Marked(u) + (['d'] + s);
    MarkedFirst(t, ['d'] + r);
    MarkedFirst(u, ['d'] + s);
    if t == [] {
      assert p[1..] == r && q[1..] == s;
    } else {
      assert p[2..] == Marked(t[1..]) + (['d'] + r) && q[2..] == Marked(u[1..]) + (['d'] + s);
      MarkedInjective(t[1..], u[1..], r, s);
      assert t == [t[0]] + t[1..] && u == [u[0]] + u[1..];
    }
  }

  lemma {:induction false} MarkedFirst(t: string, rest: string)
    requires rest != [] && rest[0] == 'd'
    ensures (Marked(t) + rest)[0] == 'd' <==> t == []
    ensures t != [] ==> (Marked(t) + rest)[1] == t[0] && (Marked(t) + rest)[2..] == Marked(t[1..]) + rest
  {
    if t != [] {
      assert Marked(t) + rest == ['c', t[0]] + (Marked(t[1..]) + rest);
    } else {
      assert Marked(t) + rest == rest;
    }
  }

  lemma {:induction false} TokenTextInjective(m: nat, t: string, n: nat, u: string, r: string, s: string)
    requires TokenText(m, t) + r == TokenText(n, u) + s
    ensures m == n && t == u && r == s
    decreases m
  {
    var p, q := TokenText(m, t) + r, TokenText(n, u) + s;
    assert p[0] == TokenText(m, t)[0] && q[0] == TokenText(n, u)[0];
    if m > 0 {
      assert p[1..] == TokenText(m - 1, t) + r && q[1..] == TokenText(n - 1, u) + s;
      TokenTextInjective(m - 1, t, n - 1, u, r, s);
    } else {
      assert p[1..] == Marked(t) + (['d'] + r) && q[1..] == Marked(u) + (['d'] + s);
      MarkedInjective(t, u, r, s);
    }
  }

  lemma {:induction false} TextOfInjective(x: seq<Token>, y: seq<Token>)
    requires TextOf(x) == TextOf(y)
    ensures x == y
  {
    hide TokenText;
    if x != [] && y != [] {
      TokenTextInjective(x[0].rank, x[0].text, y[0].rank, y[0].text, TextOf(x[1..]), TextOf(y[1..]));
      TextOfInjective(x[1..], y[1..]);
      assert x == [x[0]] + x[1..] && y == [y[0]] + y[1..];
    } else {
      TextIsLong(x);
      TextIsLong(y);
    }
  }

  lemma {:induction false} TextIsLong(x: seq<Token>)
    ensures x != [] ==> TextOf(x) != []
  {
  }

  /** Printing with sorted keys is such a text. */
  lemma LawfulDumpExists()
    ensures exists d :: Lawful(d)
  {
    hide TextOf, Print, SortKeys;
    var d: Dump := v => TextOf(Print(SortKeys(v)));
    forall x, y | d(x) == d(y) ensures SortKeys(x) == SortKeys(y) {
      TextOfInjective(Print(SortKeys(x)), Print(SortKeys(y)));
      assert Print(SortKeys(x)) + [] == Print(SortKeys(y)) + [];
      PrintInjective(SortKeys(x), SortKeys(y), [], []);
    }
    assert Lawful(d);
  }
}
