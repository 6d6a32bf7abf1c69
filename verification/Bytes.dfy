/** Byte strings, shared by every module that models the source's `bytes`. */
module Bytes {
  type Byte = x: int | 0 <= x < 256 witness 0
  type Bytes = seq<Byte>

  const TAB: Byte := 9
  const NEWLINE: Byte := 10
  const CARRIAGE_RETURN: Byte := 13
  const SPACE: Byte := 32
  const COMMA: Byte := 44
  const DASH: Byte := 45
  const COLON: Byte := 58
  const OPEN: Byte := 91
  const CLOSE: Byte := 93

  /** How many bytes the log store handles at a time. */
  const CHUNK := 65536

  function Min(a: int, b: int): int {
    if a < b then a else b
  }

  /** The pieces of `parts`, one after the other. */
  function Concat<T>(parts: seq<seq<T>>): seq<T> {
    if parts == [] then [] else parts[0] + Concat(parts[1..])
  }

  lemma Regroup<T>(a: seq<T>, b: seq<T>, c: seq<T>)
    ensures a + (b + c) == (a + b) + c
  {
  }

  lemma FirstAndRest<T>(x: T, rest: seq<T>)
    ensures ([x] + rest)[0] == x && ([x] + rest)[1..] == rest
  {
  }

  lemma TailOfAppend<T>(a: seq<T>, b: seq<T>)
    requires a != []
    ensures (a + b)[0] == a[0] && (a + b)[1..] == a[1..] + b
  {
  }

  lemma {:induction false} ConcatAppend<T>(a: seq<seq<T>>, b: seq<seq<T>>)
    ensures Concat(a + b) == Concat(a) + Concat(b)
  {
    if a == [] {
      assert a + b == b;
    } else {
      TailOfAppend(a, b);
      ConcatAppend(a[1..], b);
      Regroup(a[0], Concat(a[1..]), Concat(b));
    }
  }

  lemma ConcatSnoc<T>(a: seq<seq<T>>, last: seq<T>)
    ensures Concat(a + [last]) == Concat(a) + last
  {
    ConcatAppend(a, [last]);
    assert Concat([last]) == last + Concat([]);
  }

  /** Index of the first occurrence of `b` in `s`, or |s|. */
  function IndexOf<T(==)>(s: seq<T>, b: T): (i: nat)
    ensures i <= |s|
    ensures i < |s| ==> s[i] == b
    ensures forall k :: 0 <= k < i ==> s[k] != b
  {
    if s == [] then 0 else if s[0] == b then 0 else 1 + IndexOf(s[1..], b)
  }

  /** Python's `s.split(sep)` for a single separator: always at least one field. */
  function Split<T(==)>(s: seq<T>, sep: T): (fields: seq<seq<T>>)
    ensures |fields| >= 1
    decreases |s|
  {
    var i := IndexOf(s, sep);
    if i == |s| then [s] else [s[..i]] + Split(s[i + 1..], sep)
  }

  /** Python's `sep.join(fields)` for a single separator. */
  function Join<T>(fields: seq<seq<T>>, sep: T): seq<T> {
    if fields == [] then [] else if |fields| == 1 then fields[0]
    else fields[0] + [sep] + Join(fields[1..], sep)
  }

  lemma IndexOfAt<T>(a: seq<T>, b: T, rest: seq<T>)
    requires b !in a
    ensures IndexOf(a + [b] + rest, b) == |a|
  {
    var s := a + [b] + rest;
    assert s[|a|] == b;
    assert forall k :: 0 <= k < |a| ==> s[k] == a[k];
  }

  lemma SplitStep<T>(field: seq<T>, sep: T, rest: seq<T>)
    requires sep !in field
    ensures Split(field + [sep] + rest, sep) == [field] + Split(rest, sep)
    ensures Split(field, sep) == [field]
  {
    var s := field + [sep] + rest;
    IndexOfAt(field, sep, rest);
    assert s[..|field|] == field && s[|field| + 1..] == rest;
    assert IndexOf(field, sep) == |field|;
  }

  lemma {:induction false} JoinSplit<T>(s: seq<T>, sep: T)
    ensures Join(Split(s, sep), sep) == s && forall f :: f in Split(s, sep) ==> sep !in f
    decreases |s|
  {
    hide IndexOf;
    var i := IndexOf(s, sep);
    if i < |s| {
      var rest := Split(s[i + 1..], sep);
      JoinSplit(s[i + 1..], sep);
      FirstAndRest(s[..i], rest);
      assert s == s[..i] + [sep] + s[i + 1..];
    }
  }

  lemma {:induction false} SplitAppend<T>(a: seq<T>, sep: T, b: seq<T>)
    ensures Split(a + [sep] + b, sep) == Split(a, sep) + Split(b, sep)
    decreases |a|
  {
    hide IndexOf;
    var i := IndexOf(a, sep);
    if i == |a| {
      SplitStep(a, sep, b);
    } else {
      var first, more := a[..i], a[i + 1..];
      assert a == first + [sep] + more;
      assert a + [sep] + b == first + [sep] + (more + [sep] + b);
      SplitStep(first, sep, more);
      SplitStep(first, sep, more + [sep] + b);
      SplitAppend(more, sep, b);
      Regroup([first], Split(more, sep), Split(b, sep));
    }
  }

  /** Where a field stands between two separators. */
  lemma {:induction false} PartPlace<T>(s: seq<T>, sep: T, part: seq<T>) returns (a: seq<T>, b: seq<T>)
    requires part in Split(s, sep)
    ensures [sep] + s + [sep] == a + [sep] + part + [sep] + b
    decreases |s|
  {
    hide IndexOf;
    var i := IndexOf(s, sep);
    if i == |s| {
      a, b := [], [];
    } else {
      var first, more := s[..i], s[i + 1..];
      assert s == first + [sep] + more;
      if part == first {
        a, b := [], more + [sep];
        WrapFirst(first, sep, more);
      } else {
        var c, d := PartPlace(more, sep, part);
        a, b := [sep] + first + c, d;
        WrapLater(first, sep, more, c, part, d);
      }
    }
  }

  lemma WrapFirst<T>(first: seq<T>, sep: T, more: seq<T>)
    ensures [sep] + (first + [sep] + more) + [sep] == [] + [sep] + first + [sep] + (more + [sep])
  {
  }

  lemma WrapLater<T>(first: seq<T>, sep: T, more: seq<T>, c: seq<T>, part: seq<T>, d: seq<T>)
    requires [sep] + more + [sep] == c + [sep] + part + [sep] + d
    ensures [sep] + (first + [sep] + more) + [sep] == ([sep] + first + c) + [sep] + part + [sep] + d
  {
    assert [sep] + (first + [sep] + more) + [sep] == [sep] + first + ([sep] + more + [sep]);
    assert ([sep] + first) + (c + [sep] + part + [sep] + d) == ([sep] + first + c) + [sep] + part + [sep] + d;
  }

  /** What stands between two separators is a field. */
  lemma PlaceIsPart<T>(s: seq<T>, sep: T, part: seq<T>, a: seq<T>, b: seq<T>)
    requires sep !in part && [sep] + s + [sep] == a + [sep] + part + [sep] + b
    ensures part in Split(s, sep)
  {
    hide Split;
    if b == [] {
      assert [sep] + s == a + [sep] + part by { DropLast([sep] + s, a + [sep] + part, sep, b); }
      SplitStep(part, sep, []);
      BehindSeparator(s, sep, part, a, part);
    } else {
      var rest := part + [sep] + b[..|b| - 1];
      assert [sep] + s == a + [sep] + rest by { DropLast([sep] + s, a + [sep] + part, sep, b); }
      SplitStep(part, sep, b[..|b| - 1]);
      BehindSeparator(s, sep, part, a, rest);
    }
  }

  lemma DropLast<T>(x: seq<T>, y: seq<T>, sep: T, b: seq<T>)
    requires x + [sep] == y + [sep] + b
    ensures x == if b == [] then y else y + [sep] + b[..|b| - 1]
  {
    assert x == (x + [sep])[..|x|];
  }

  lemma BehindSeparator<T>(s: seq<T>, sep: T, part: seq<T>, a: seq<T>, rest: seq<T>)
    requires [sep] + s == a + [sep] + rest && Split(rest, sep)[0] == part
    ensures part in Split(s, sep)
  {
    hide Split;
    assert s == ([sep] + s)[1..];
    assert part in Split(rest, sep);
    if a == [] {
      assert s == rest;
    } else {
      assert s == a[1..] + [sep] + rest;
      SplitAppend(a[1..], sep, rest);
    }
  }

  lemma {:induction false} SplitJoin<T>(fields: seq<seq<T>>, sep: T)
    requires fields != []
    requires forall f :: f in fields ==> sep !in f
    ensures Split(Join(fields, sep), sep) == fields
  {
    hide Split;
    assert fields[0] in fields;
    if |fields| > 1 {
      SplitStep(fields[0], sep, Join(fields[1..], sep));
      SplitJoin(fields[1..], sep);
    } else {
      SplitStep(fields[0], sep, []);
      assert fields == [fields[0]];
    }
  }
}
