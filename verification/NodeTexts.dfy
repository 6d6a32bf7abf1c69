/** What a list of node expressions in one text stands for: its parts between top-level commas, and their names. */
module NodeTexts {
  import opened Wrappers
  import opened Bytes
  import opened NodeFold
  import opened NodeMeaning

  // ---------------------------------------------------------------- parts between top-level commas

  /** Opening less closing brackets. */
  function Depth(s: Bytes): int {
    if s == [] then 0 else
      var b := s[|s| - 1];
      Depth(s[..|s| - 1]) + (if b == OPEN then 1 else if b == CLOSE then -1 else 0)
  }

  /** No bracket is closed before it is opened. */
  ghost predicate NeverBelow(s: Bytes) {
    forall k :: 0 <= k <= |s| ==> Depth(s[..k]) >= 0
  }

  ghost predicate Balanced(s: Bytes) {
    NeverBelow(s) && Depth(s) == 0
  }

  /** Every comma is inside brackets. */
  ghost predicate CommasInside(s: Bytes) {
    forall k :: 0 <= k < |s| && s[k] == COMMA ==> Depth(s[..k]) > 0
  }

  ghost predicate OnePart(s: Bytes) {
    Balanced(s) && CommasInside(s)
  }

  function NonEmpty(parts: seq<Bytes>): seq<Bytes> {
    if parts == [] then [] else (if parts[0] == [] then [] else [parts[0]]) + NonEmpty(parts[1..])
  }

  lemma {:induction false} NonEmptyAppend(parts: seq<Bytes>, p: Bytes)
    ensures NonEmpty(parts + [p]) == NonEmpty(parts) + (if p == [] then [] else [p])
  {
    if parts == [] {
      assert parts + [p] == [p];
    } else {
      TailOfAppend(parts, [p]);
      NonEmptyAppend(parts[1..], p);
      Regroup(if parts[0] == [] then [] else [parts[0]], NonEmpty(parts[1..]), if p == [] then [] else [p]);
    }
  }

  /** The text is cut at its top-level commas into `raw`. */
  ghost predicate CutInto(value: Bytes, raw: seq<Bytes>) {
    raw != [] && Join(raw, COMMA) == value && forall p :: p in raw ==> OnePart(p)
  }

  lemma DepthSnoc(s: Bytes, b: Byte)
    ensures Depth(s + [b]) == Depth(s) + (if b == OPEN then 1 else if b == CLOSE then -1 else 0)
  {
    assert (s + [b])[..|s|] == s;
  }

  /** One more byte of a part. */
  lemma MoreOfPart(part: Bytes, b: Byte)
    requires NeverBelow(part) && CommasInside(part) && Depth(part + [b]) >= 0 && (b == COMMA ==> Depth(part) > 0)
    ensures NeverBelow(part + [b]) && CommasInside(part + [b])
  {
    hide Depth;
    var all := part + [b];
    forall k | 0 <= k <= |all| ensures Depth(all[..k]) >= 0 {
      if k <= |part| { assert all[..k] == part[..k]; } else { assert all[..k] == all; }
    }
    forall k | 0 <= k < |all| && all[k] == COMMA ensures Depth(all[..k]) > 0 {
      assert all[..k] == part[..k];
      if k == |part| { assert part[..k] == part; }
    }
  }

  lemma NextByte(part: Bytes, rest: Bytes)
    requires rest != []
    ensures part + rest == (part + [rest[0]]) + rest[1..]
  {
  }

  lemma {:induction false} SplitSound(rest: Bytes, part: Bytes, depth: nat) returns (raw: seq<Bytes>)
    requires NeverBelow(part) && CommasInside(part) && depth == Depth(part) && SplitFrom(rest, part, depth).Ok?
    ensures CutInto(part + rest, raw) && SplitFrom(rest, part, depth).value == NonEmpty(raw)
    decreases |rest|
  {
    hide Depth, NeverBelow, CommasInside;
    if rest == [] {
      raw := [part];
      assert part + rest == part;
    } else {
      DepthSnoc(part, rest[0]);
      NextByte(part, rest);
      if rest[0] == COMMA && depth == 0 {
        EmptyPart();
        var more := SplitSound(rest[1..], [], 0);
        raw := [part] + more;
        FirstAndRest(part, more);
        assert [] + rest[1..] == rest[1..];
        Regroup(part, [COMMA], rest[1..]);
      } else {
        MoreOfPart(part, rest[0]);
        raw := SplitSound(rest[1..], part + [rest[0]], Depth(part + [rest[0]]));
      }
    }
  }

  lemma EmptyPart()
    ensures NeverBelow([]) && CommasInside([]) && Depth([]) == 0
  {
  }

  lemma {:induction false} SkipPart(done: Bytes, more: Bytes, rest: Bytes)
    requires OnePart(done + more) && Depth(done) >= 0
    ensures SplitFrom(more + rest, done, Depth(done)) == SplitFrom(rest, done + more, 0)
    decreases |more|
  {
    hide Depth;
    if more == [] {
      assert more + rest == rest && done + more == done;
    } else {
      var whole := done + more;
      var b := more[0];
      TailOfAppend(more, rest);
      NextByte(done, more);
      DepthSnoc(done, b);
      assert whole[..|done|] == done && whole[..|done| + 1] == done + [b] && whole[|done|] == b;
      SkipPart(done + [b], more[1..], rest);
    }
  }

  lemma {:induction false} SplitComplete(raw: seq<Bytes>)
    requires raw != [] && forall p :: p in raw ==> OnePart(p)
    ensures SplitTopLevel(Join(raw, COMMA)) == Ok(NonEmpty(raw))
  {
    hide OnePart, Depth;
    var part := raw[0];
    assert part in raw && [] + part == part;
    EmptyPart();
    if |raw| == 1 {
      SkipPart([], part, []);
      assert part + [] == part && raw[1..] == [] && Join(raw, COMMA) == part;
      var kept: seq<Bytes> := if part == [] then [] else [part];
      assert NonEmpty(raw) == kept + NonEmpty([]) && kept + [] == kept;
    } else {
      var rest := Join(raw[1..], COMMA);
      SkipPart([], part, [COMMA] + rest);
      assert part + ([COMMA] + rest) == part + [COMMA] + rest;
      FirstAndRest(COMMA, rest);
      SplitComplete(raw[1..]);
    }
  }

  /** The non-empty parts between top-level commas. */
  ghost predicate PartsAre(value: Bytes, parts: seq<Bytes>) {
    exists raw :: CutInto(value, raw) && parts == NonEmpty(raw)
  }

  lemma {:induction false} SplitRefuses(done: Bytes, rest: Bytes, part: Bytes, depth: nat)
    requires NeverBelow(done) && depth == Depth(done)
    ensures SplitFrom(rest, part, depth) == Err(UnmatchedClosing) <==> !NeverBelow(done + rest)
    ensures SplitFrom(rest, part, depth) == Err(UnmatchedOpening) <==>
              NeverBelow(done + rest) && Depth(done + rest) != 0
    ensures SplitFrom(rest, part, depth).Ok? <==> Balanced(done + rest)
    decreases |rest|
  {
    hide Depth;
    if rest == [] {
      assert done + rest == done;
    } else {
      var b := rest[0];
      DepthSnoc(done, b);
      NextByte(done, rest);
      var next := done + [b];
      assert (done + rest)[..|next|] == next;
      if Depth(next) >= 0 {
        NeverBelowSnoc(done, b);
        SplitRefuses(next, rest[1..], if b == COMMA && depth == 0 then [] else part + [b], Depth(next));
      }
    }
  }

  lemma NeverBelowSnoc(s: Bytes, b: Byte)
    requires NeverBelow(s) && Depth(s + [b]) >= 0
    ensures NeverBelow(s + [b])
  {
    hide Depth;
    var all := s + [b];
    forall k | 0 <= k <= |all| ensures Depth(all[..k]) >= 0 {
      if k <= |s| { assert all[..k] == s[..k]; } else { assert all[..k] == all; }
    }
  }

  /**
    Main result: a text splits into its non-empty parts between top-level commas, and is refused exactly when its
    brackets do not match: for a closing one if some prefix closes more than it opens, else for an opening one.
   */
  lemma SplitExact(value: Bytes, parts: seq<Bytes>)
    ensures SplitTopLevel(value) == Ok(parts) <==> PartsAre(value, parts)
    ensures SplitTopLevel(value).Ok? <==> Balanced(value)
    ensures SplitTopLevel(value) == Err(UnmatchedClosing) <==> !NeverBelow(value)
  {
    hide SplitFrom, CutInto, Depth, NeverBelow;
    assert [] + value == value;
    EmptyPart();
    SplitRefuses([], value, [], 0);
    if SplitTopLevel(value) == Ok(parts) {
      var raw := SplitSound(value, [], 0);
    }
    if PartsAre(value, parts) {
      var raw :| CutInto(value, raw) && parts == NonEmpty(raw);
      CutIsSplit(value, raw);
    }
  }

  lemma CutIsSplit(value: Bytes, raw: seq<Bytes>)
    requires CutInto(value, raw)
    ensures SplitTopLevel(value) == Ok(NonEmpty(raw))
  {
    hide SplitFrom, OnePart, Join;
    SplitComplete(raw);
  }

  // ---------------------------------------------------------------- the names of a text

  ghost predicate PartsFit(parts: seq<Bytes>, lists: seq<seq<Name>>, maxNodes: int) {
    |lists| == |parts| && forall i :: 0 <= i < |parts| ==> Fits(parts[i], lists[i], maxNodes)
  }

  /** The names of a text: those of its parts, in order. */
  ghost predicate TextStands(text: Bytes, names: seq<Name>, maxNodes: int) {
    exists parts, lists :: PartsAre(text, parts) && PartsFit(parts, lists, maxNodes) && names == Concat(lists)
  }

  lemma {:induction false} PartsSound(parts: seq<Bytes>, maxNodes: int) returns (lists: seq<seq<Name>>)
    requires ExpandParts(parts, maxNodes).Ok?
    ensures PartsFit(parts, lists, maxNodes) && ExpandParts(parts, maxNodes).value == Concat(lists)
  {
    hide Expand, Fits;
    if parts == [] {
      lists := [];
    } else {
      var first := Expand(parts[0], maxNodes).value;
      ExpandExact(parts[0], first, maxNodes);
      var rest := PartsSound(parts[1..], maxNodes);
      lists := [first] + rest;
      FirstAndRest(first, rest);
    }
  }

  lemma {:induction false} PartsComplete(parts: seq<Bytes>, lists: seq<seq<Name>>, maxNodes: int)
    requires PartsFit(parts, lists, maxNodes)
    ensures ExpandParts(parts, maxNodes) == Ok(Concat(lists))
  {
    hide Expand, Fits;
    if parts != [] {
      ExpandExact(parts[0], lists[0], maxNodes);
      PartsComplete(parts[1..], lists[1..], maxNodes);
    }
  }

  /** Main result: a text expands to exactly the names that it stands for. */
  lemma TextExact(text: Bytes, names: seq<Name>, maxNodes: int)
    ensures ExpandText(text, maxNodes) == Ok(names) <==> TextStands(text, names, maxNodes)
  {
    hide SplitTopLevel, ExpandParts, PartsFit, PartsAre;
    if ExpandText(text, maxNodes) == Ok(names) {
      var parts := SplitTopLevel(text).value;
      SplitExact(text, parts);
      var lists := PartsSound(parts, maxNodes);
    }
    if TextStands(text, names, maxNodes) {
      var parts, lists :| PartsAre(text, parts) && PartsFit(parts, lists, maxNodes) && names == Concat(lists);
      SplitExact(text, parts);
      PartsComplete(parts, lists, maxNodes);
    }
  }
}
