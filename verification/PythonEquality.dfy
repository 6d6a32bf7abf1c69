/** Python's `==` on JSON values, where 1, 1.0 and True are equal, against the equality of printed values. */
module PythonEquality {
  import opened Bytes
  import opened Ordering
  import opened CanonicalValue

  function Pow2(e: int): (p: real)
    ensures p > 0.0
    decreases if e < 0 then -e else e
  {
    if e == 0 then 1.0 else if e > 0 then 2.0 * Pow2(e - 1) else Pow2(e + 1) / 2.0
  }

  predicate IsNumber(a: Atom) {
    a.Bool? || a.Int? || a.Real?
  }

  function ValueOf(a: Atom): real
    requires IsNumber(a)
  {
    match a
    case Bool(b) => if b then 1.0 else 0.0
    case Int(i) => i as real
    case Real(x) => if x.Finite? then x.m as real * Pow2(x.e) else 0.0
  }

  predicate EqualAtoms(a: Atom, b: Atom) {
    if IsNumber(a) && IsNumber(b) then ValueOf(a) == ValueOf(b) else a == b
  }

  /** x == y */
  predicate PyEqual(x: Json, y: Json)
    decreases x, 1
  {
    match x
    case Leaf(a) => y.Leaf? && EqualAtoms(a, y.atom)
    case Arr(items) => y.Arr? && EqualItems(items, y.items)
    case Obj(fields) => y.Obj? && EqualFields(fields, y.fields)
  }

  predicate EqualItems(xs: seq<Json>, ys: seq<Json>)
    decreases xs, 0
  {
    if xs == [] then ys == [] else ys != [] && PyEqual(xs[0], ys[0]) && EqualItems(xs[1..], ys[1..])
  }

  /** The same keys, with equal values. */
  predicate EqualFields(xs: seq<Field>, ys: seq<Field>)
    decreases xs, 0
  {
    (forall g :: g in ys ==> HasKey(xs, g.key)) && forall f :: f in xs ==> HasEqual(f, ys)
  }

  predicate HasEqual(f: Field, ys: seq<Field>)
    decreases f, 0
  {
    exists g :: g in ys && f.key == g.key && PyEqual(f.value, g.value)
  }

  // ---------------------------------------------------------------- an equivalence

  lemma {:induction false} Reflexive(x: Json)
    ensures PyEqual(x, x)
    decreases x, 1
  {
    match x {
      case Leaf(_) =>
      case Arr(items) => ReflexiveItems(items);
      case Obj(fields) =>
        forall f | f in fields ensures HasEqual(f, fields) { Reflexive(f.value); }
    }
  }

  lemma {:induction false} ReflexiveItems(items: seq<Json>)
    ensures EqualItems(items, items)
    decreases items, 0
  {
    hide PyEqual;
    if items != [] {
      Reflexive(items[0]);
      ReflexiveItems(items[1..]);
    }
  }

  lemma SameKeySameField(fields: seq<Field>, f: Field, g: Field)
    requires DistinctKeys(fields) && f in fields && g in fields && f.key == g.key
    ensures f == g
  {
  }

  lemma {:induction false} Symmetric(x: Json, y: Json)
    requires Valid(x) && Valid(y) && PyEqual(x, y)
    ensures PyEqual(y, x)
    decreases x, 1
  {
    match x {
      case Leaf(_) =>
      case Arr(items) => SymmetricItems(items, y.items);
      case Obj(fields) => SymmetricFields(fields, y.fields);
    }
  }

  lemma {:induction false} SymmetricItems(xs: seq<Json>, ys: seq<Json>)
    requires (forall x :: x in xs ==> Valid(x)) && (forall y :: y in ys ==> Valid(y)) && EqualItems(xs, ys)
    ensures EqualItems(ys, xs)
    decreases xs, 0
  {
    hide PyEqual, Valid;
    if xs != [] {
      assert xs[0] in xs && ys[0] in ys;
      Symmetric(xs[0], ys[0]);
      SymmetricItems(xs[1..], ys[1..]);
    }
  }

  lemma Partner(f: Field, ys: seq<Field>) returns (g: Field)
    requires HasEqual(f, ys)
    ensures g in ys && f.key == g.key && PyEqual(f.value, g.value)
  {
    hide PyEqual;
    g :| g in ys && f.key == g.key && PyEqual(f.value, g.value);
  }

  lemma IsPartner(f: Field, ys: seq<Field>, g: Field)
    requires g in ys && f.key == g.key && PyEqual(f.value, g.value)
    ensures HasEqual(f, ys)
  {
    hide PyEqual;
  }

  lemma KeyOf(fields: seq<Field>, f: Field)
    requires f in fields
    ensures HasKey(fields, f.key)
  {
  }

  lemma {:induction false} SymmetricFields(xs: seq<Field>, ys: seq<Field>)
    requires DistinctKeys(xs) && DistinctKeys(ys) && EqualFields(xs, ys)
    requires (forall f :: f in xs ==> Valid(f.value)) && forall g :: g in ys ==> Valid(g.value)
    ensures EqualFields(ys, xs)
    decreases xs, 0
  {
    hide PyEqual, Valid, DistinctKeys, HasEqual, HasKey;
    forall g | g in ys ensures HasEqual(g, xs) {
      var f := KeyHolder(xs, g.key);
      var h := Partner(f, ys);
      SameKeySameField(ys, g, h);
      Symmetric(f.value, g.value);
      IsPartner(g, xs, f);
    }
    forall f | f in xs ensures HasKey(ys, f.key) {
      var g := Partner(f, ys);
      KeyOf(ys, g);
    }
  }

  lemma {:induction false} Transitive(x: Json, y: Json, z: Json)
    requires PyEqual(x, y) && PyEqual(y, z)
    ensures PyEqual(x, z)
    decreases x, 1
  {
    match x {
      case Leaf(_) =>
      case Arr(items) => TransitiveItems(items, y.items, z.items);
      case Obj(fields) => TransitiveFields(fields, y.fields, z.fields);
    }
  }

  lemma {:induction false} TransitiveItems(xs: seq<Json>, ys: seq<Json>, zs: seq<Json>)
    requires EqualItems(xs, ys) && EqualItems(ys, zs)
    ensures EqualItems(xs, zs)
    decreases xs, 0
  {
    hide PyEqual;
    if xs != [] {
      Transitive(xs[0], ys[0], zs[0]);
      TransitiveItems(xs[1..], ys[1..], zs[1..]);
    }
  }

  lemma {:induction false} TransitiveFields(xs: seq<Field>, ys: seq<Field>, zs: seq<Field>)
    requires EqualFields(xs, ys) && EqualFields(ys, zs)
    ensures EqualFields(xs, zs)
    decreases xs, 0
  {
    hide PyEqual, HasEqual, HasKey;
    forall f | f in xs ensures HasEqual(f, zs) {
      var g := Partner(f, ys);
      var h := Partner(g, zs);
      Transitive(f.value, g.value, h.value);
      IsPartner(f, zs, h);
    }
    forall h | h in zs ensures HasKey(xs, h.key) {
      var g := KeyHolder(ys, h.key);
      assert HasKey(xs, g.key);
    }
  }

  // ---------------------------------------------------------------- where it is the equality of printed values

  /** No truth value and no floating-point number occurs in the value. */
  ghost predicate Plain(v: Json) {
    match v
    case Leaf(a) => !a.Bool? && !a.Real?
    case Arr(items) => forall x :: x in items ==> Plain(x)
    case Obj(fields) => forall f :: f in fields ==> Plain(f.value)
  }

  lemma {:induction false} PlainSame(x: Json, y: Json)
    requires Plain(x) && Plain(y) && PyEqual(x, y)
    ensures Same(x, y)
    decreases x, 1
  {
    match x {
      case Leaf(_) =>
      case Arr(items) => PlainItems(items, y.items);
      case Obj(fields) => PlainFields(fields, y.fields);
    }
  }

  lemma {:induction false} PlainItems(xs: seq<Json>, ys: seq<Json>)
    requires (forall x :: x in xs ==> Plain(x)) && (forall y :: y in ys ==> Plain(y)) && EqualItems(xs, ys)
    ensures SameItems(xs, ys)
    decreases xs, 0
  {
    hide PyEqual, Plain, Same;
    if xs != [] {
      assert xs[0] in xs && ys[0] in ys;
      PlainSame(xs[0], ys[0]);
      PlainItems(xs[1..], ys[1..]);
      assert ys[..0] + ys[1..] == ys[1..];
    }
  }

  lemma {:induction false} PlainFields(xs: seq<Field>, ys: seq<Field>)
    requires (forall f :: f in xs ==> Plain(f.value)) && (forall g :: g in ys ==> Plain(g.value)) && EqualFields(xs, ys)
    ensures SameFields(xs, ys)
    decreases xs, 0
  {
    hide PyEqual, Plain, Same, HasEqual, HasKey, HasSame;
    forall f | f in xs ensures HasSame(f, ys) {
      var g := Partner(f, ys);
      PlainSame(f.value, g.value);
      SamePartner(f, ys, g);
    }
  }

  lemma SamePartner(f: Field, ys: seq<Field>, g: Field)
    requires g in ys && f.key == g.key && Same(f.value, g.value)
    ensures HasSame(f, ys)
  {
    hide Same;
  }

  /** Main result: on normal forms without truth values and floating-point numbers, Python's equality is equality. */
  lemma PlainExact(d: Dump, x: Json, y: Json)
    requires Lawful(d) && Valid(x) && Valid(y) && Normal(d, x) && Normal(d, y) && Plain(x) && Plain(y)
    ensures PyEqual(x, y) <==> x == y
  {
    hide PyEqual, Same, Canonical, SortKeys, Valid, Plain, Lawful;
    Reflexive(x);
    if PyEqual(x, y) {
      PlainSame(x, y);
      CanonicalDecides(d, x, y);
    }
  }

  // ---------------------------------------------------------------- normal forms have distinct keys

  lemma {:induction false} CanonicalValid(d: Dump, v: Json)
    requires Valid(v)
    ensures Valid(Canonical(d, v))
    decreases v, 1
  {
    hide By, KeyLeq, Sort;
    match v {
      case Leaf(_) =>
      case Arr(items) =>
        CanonicalItemsValid(d, items);
        SortKeepsElements(By(d), CanonicalAll(d, items));
      case Obj(fields) =>
        CanonicalFieldsValid(d, fields);
        SortedKeys(CanonicalIn(d, fields));
        SortKeepsElements(KeyLeq, CanonicalIn(d, fields));
    }
  }

  lemma {:induction false} CanonicalItemsValid(d: Dump, items: seq<Json>)
    requires forall x :: x in items ==> Valid(x)
    ensures forall x :: x in CanonicalAll(d, items) ==> Valid(x)
    decreases items, 0
  {
    hide Canonical, Valid;
    if items != [] {
      assert items[0] in items;
      CanonicalValid(d, items[0]);
      CanonicalItemsValid(d, items[1..]);
    }
  }

  lemma {:induction false} CanonicalFieldsValid(d: Dump, fields: seq<Field>)
    requires DistinctKeys(fields) && forall f :: f in fields ==> Valid(f.value)
    ensures DistinctKeys(CanonicalIn(d, fields)) && forall f :: f in CanonicalIn(d, fields) ==> Valid(f.value)
    decreases fields, 0
  {
    hide Canonical, Valid;
    SameKeysDistinct(d, fields);
    forall f | f in CanonicalIn(d, fields) ensures Valid(f.value) {
      var g := FieldOf(d, fields, f);
      CanonicalValid(d, g.value);
    }
  }

  /** Sorting keeps the keys distinct. */
  lemma SortedKeys(fields: seq<Field>)
    requires DistinctKeys(fields)
    ensures DistinctKeys(Sort(KeyLeq, fields))
  {
    hide KeyLeq, Sort;
    var sorted := Sort(KeyLeq, fields);
    SortMultiset(KeyLeq, fields);
    SortKeepsElements(KeyLeq, fields);
    assert Distinct(fields);
    SameCountsDistinct(fields, sorted);
    forall i, j | 0 <= i < j < |sorted| ensures sorted[i].key != sorted[j].key {
      assert sorted[i] in fields && sorted[j] in fields;
      if sorted[i].key == sorted[j].key { SameKeySameField(fields, sorted[i], sorted[j]); }
    }
  }

  lemma {:induction false} CanonicalPlain(d: Dump, v: Json)
    requires Plain(v)
    ensures Plain(Canonical(d, v))
    decreases v, 1
  {
    hide By, KeyLeq, Sort;
    match v {
      case Leaf(_) =>
      case Arr(items) =>
        CanonicalItemsPlain(d, items);
        SortKeepsElements(By(d), CanonicalAll(d, items));
      case Obj(fields) =>
        CanonicalFieldsPlain(d, fields);
        SortKeepsElements(KeyLeq, CanonicalIn(d, fields));
    }
  }

  lemma {:induction false} CanonicalItemsPlain(d: Dump, items: seq<Json>)
    requires forall x :: x in items ==> Plain(x)
    ensures forall x :: x in CanonicalAll(d, items) ==> Plain(x)
    decreases items, 0
  {
    hide Canonical, Plain;
    if items != [] {
      assert items[0] in items;
      CanonicalPlain(d, items[0]);
      CanonicalItemsPlain(d, items[1..]);
    }
  }

  lemma {:induction false} CanonicalFieldsPlain(d: Dump, fields: seq<Field>)
    requires forall f :: f in fields ==> Plain(f.value)
    ensures forall f :: f in CanonicalIn(d, fields) ==> Plain(f.value)
    decreases fields, 0
  {
    hide Canonical, Plain;
    forall f | f in CanonicalIn(d, fields) ensures Plain(f.value) {
      var g := FieldOf(d, fields, f);
      CanonicalPlain(d, g.value);
    }
  }

  // ---------------------------------------------------------------- which numbers are equal

  /** The integer, doubled so many times. */
  function Doubled(n: int, times: nat): int
    decreases times
  {
    if times == 0 then n else Doubled(2 * n, times - 1)
  }

  lemma {:induction false} DoubledIsEven(n: int, times: nat)
    requires times > 0
    ensures Doubled(n, times) % 2 == 0
    decreases times
  {
    if times > 1 { DoubledIsEven(2 * n, times - 1); }
  }

  lemma Assoc(a: real, b: real, c: real)
    ensures a * (b * c) == (a * b) * c
  {
  }

  lemma Halved(n: int, e: int)
    ensures n as real * Pow2(e) == (2 * n) as real * Pow2(e - 1)
  {
    assert Pow2(e) == 2.0 * Pow2(e - 1);
    hide Pow2;
    Assoc(n as real, 2.0, Pow2(e - 1));
    assert n as real * 2.0 == (2 * n) as real;
  }

  lemma {:induction false} AtLowerPower(n: int, e: int, times: nat)
    ensures n as real * Pow2(e) == Doubled(n, times) as real * Pow2(e - times)
    decreases times
  {
    hide Pow2;
    if times > 0 {
      Halved(n, e);
      AtLowerPower(2 * n, e - 1, times - 1);
    }
  }

  lemma Cancel(x: int, y: int, p: real)
    requires p > 0.0 && x as real * p == y as real * p
    ensures x == y
  {
    CancelReal(x as real, y as real, p);
  }

  lemma CancelReal(x: real, y: real, p: real)
    requires p > 0.0 && x * p == y * p
    ensures x == y
  {
    assert (x - y) * p == 0.0;
  }

  /** An odd number times a power of two is the same number only written in the same way. */
  lemma OneForm(m: Odd, e: int, n: Odd, f: int)
    requires m as real * Pow2(e) == n as real * Pow2(f) && e <= f
    ensures m == n && e == f
  {
    hide Pow2;
    AtLowerPower(n, f, f - e);
    Cancel(m, Doubled(n, f - e), Pow2(e));
    if e < f { DoubledIsEven(n, f - e); }
  }

  lemma NotZero(m: Odd, e: int)
    ensures m as real * Pow2(e) != 0.0
  {
    hide Pow2;
    if m as real * Pow2(e) == 0.0 { Cancel(m, 0, Pow2(e)); }
  }

  lemma ValueOfFloat(x: Float)
    ensures ValueOf(Real(x)) == if x.Finite? then x.m as real * Pow2(x.e) else 0.0
  {
  }

  /** Main result: floats are equal only if they are one float, or zeros. */
  lemma FloatsDiffer(x: Float, y: Float)
    ensures EqualAtoms(Real(x), Real(y)) <==> x == y || (!x.Finite? && !y.Finite?)
  {
    ValueOfFloat(x);
    ValueOfFloat(y);
    hide Pow2, ValueOf;
    if x.Finite? && y.Finite? {
      if ValueOf(Real(x)) == ValueOf(Real(y)) {
        if x.e <= y.e { OneForm(x.m, x.e, y.m, y.e); } else { OneForm(y.m, y.e, x.m, x.e); }
      }
    } else if x.Finite? {
      NotZero(x.m, x.e);
    } else if y.Finite? {
      NotZero(y.m, y.e);
    }
  }

  /** Main result: True is 1, False is 0, an integer is only itself, and both zeros are 0. */
  lemma IntegersEqual(i: int, j: int)
    ensures EqualAtoms(Int(i), Int(j)) <==> i == j
    ensures EqualAtoms(Int(i), Bool(true)) <==> i == 1
    ensures EqualAtoms(Int(i), Bool(false)) <==> i == 0
    ensures EqualAtoms(Int(i), Real(Zero)) <==> i == 0
    ensures EqualAtoms(Int(i), Real(NegativeZero)) <==> i == 0
  {
  }

  /** Main result: an integer equals a float exactly when the float is whole and is that integer. */
  lemma IntegerFloat(i: int, m: Odd, e: int)
    ensures EqualAtoms(Int(i), Real(Finite(m, e))) <==> e >= 0 && i == Doubled(m, e)
  {
    assert Pow2(0) == 1.0;
    ValueOfFloat(Finite(m, e));
    assert ValueOf(Int(i)) == i as real * Pow2(0);
    hide Pow2, ValueOf, Doubled;
    if e >= 0 {
      AtLowerPower(m, e, e);
      if i as real * Pow2(0) == Doubled(m, e) as real * Pow2(0) { Cancel(i, Doubled(m, e), Pow2(0)); }
    } else {
      AtLowerPower(i, 0, -e);
      if Doubled(i, -e) as real * Pow2(e) == m as real * Pow2(e) {
        Cancel(Doubled(i, -e), m, Pow2(e));
        DoubledIsEven(i, -e);
      }
    }
  }

  // ---------------------------------------------------------------- a pair that prints differently

  const MIB: Atom := Int(65520)
  const MIB_FLOAT: Atom := Real(Finite(4095, 4))

  /** 65520 and 65520.0 print differently and are equal in Python. */
  lemma EqualMib()
    ensures MIB != MIB_FLOAT && EqualAtoms(MIB, MIB_FLOAT)
  {
    assert Pow2(4) == 2.0 * Pow2(3) && Pow2(3) == 2.0 * Pow2(2) && Pow2(2) == 2.0 * Pow2(1) && Pow2(1) == 2.0 * Pow2(0);
    assert Pow2(4) == 16.0;
  }
}
