/** Decimal text: Python's str(int), int(text) and zero-padded formatting. */
module Decimal {
  import opened Bytes

  predicate IsDigit(b: Byte) {
    48 <= b <= 57
  }

  predicate AllDigits(s: Bytes) {
    forall k :: 0 <= k < |s| ==> IsDigit(s[k])
  }

  function Pow10(w: nat): (p: nat)
    ensures p >= 1
  {
    if w == 0 then 1 else 10 * Pow10(w - 1)
  }

  /** int(text) */
  function Value(s: Bytes): nat
    requires AllDigits(s)
  {
    if s == [] then 0 else 10 * Value(s[..|s| - 1]) + (s[|s| - 1] - 48)
  }

  /** str(n) */
  function Digits(n: nat): (s: Bytes)
    ensures AllDigits(s) && |s| >= 1 && Value(s) == n
  {
    if n < 10 then [48 + n] else
      var rest := Digits(n / 10);
      assert (rest + [48 + n % 10])[..|rest|] == rest;
      rest + [48 + n % 10]
  }

  /** `n` written with exactly `w` digits: what formatting with width `w` prints when n < 10**w. */
  function Padded(n: nat, w: nat): (s: Bytes)
    requires n < Pow10(w)
    ensures |s| == w && AllDigits(s) && Value(s) == n
  {
    if w == 0 then [] else
      var rest := Padded(n / 10, w - 1);
      assert (rest + [48 + n % 10])[..|rest|] == rest;
      rest + [48 + n % 10]
  }

  function Zeros(k: nat): (s: Bytes)
    ensures |s| == k && AllDigits(s)
  {
    seq(k, _ => 48)
  }

  /** f"{n:0{w}d}": pad on the left with zeros up to width `w`. */
  function Format(n: nat, w: nat): (s: Bytes)
    ensures AllDigits(s)
  {
    var d := Digits(n);
    if |d| >= w then d else Zeros(w - |d|) + d
  }

  lemma {:induction false} ValueBound(s: Bytes)
    requires AllDigits(s)
    ensures Value(s) < Pow10(|s|)
  {
    if s != [] {
      ValueBound(s[..|s| - 1]);
    }
  }

  /** A digit string is determined by its length and its value. */
  lemma {:induction false} PaddedValue(s: Bytes)
    requires AllDigits(s)
    ensures Value(s) < Pow10(|s|) && Padded(Value(s), |s|) == s
  {
    ValueBound(s);
    if s != [] {
      PaddedValue(s[..|s| - 1]);
      assert s == s[..|s| - 1] + [s[|s| - 1]];
    }
  }

  lemma EqualDigits(s: Bytes, t: Bytes)
    requires AllDigits(s) && AllDigits(t) && |s| == |t|
    ensures Value(s) == Value(t) <==> s == t
  {
    PaddedValue(s);
    PaddedValue(t);
  }

  lemma {:induction false} DigitsLength(n: nat, w: nat)
    requires w >= 1 && n < Pow10(w)
    ensures |Digits(n)| <= w
  {
    if n >= 10 {
      assert Pow10(0) == 1;
      DigitsLength(n / 10, w - 1);
    }
  }

  lemma {:induction false} ZerosValue(k: nat, d: Bytes)
    requires AllDigits(d)
    ensures AllDigits(Zeros(k) + d) && Value(Zeros(k) + d) == Value(d)
    decreases |d|, k
  {
    var s := Zeros(k) + d;
    if d == [] {
      if k > 0 {
        assert s[..|s| - 1] == Zeros(k - 1) + d;
        ZerosValue(k - 1, d);
      }
    } else {
      assert s[..|s| - 1] == Zeros(k) + d[..|d| - 1];
      ZerosValue(k, d[..|d| - 1]);
    }
  }

  /** Zero-padded formatting prints exactly `w` digits for every number that has at most `w` of them. */
  lemma FormatPadded(n: nat, w: nat)
    requires w >= 1 && n < Pow10(w)
    ensures Format(n, w) == Padded(n, w)
  {
    DigitsLength(n, w);
    ZerosValue(w - |Digits(n)|, Digits(n));
    var s := Zeros(w - |Digits(n)|) + Digits(n);
    assert Format(n, w) == s;
    PaddedValue(s);
  }

  /** Reading back a zero-padded number gives the number, and reprinting a digit string gives the string. */
  lemma FormatValue(s: Bytes)
    requires AllDigits(s) && s != []
    ensures Format(Value(s), |s|) == s
  {
    PaddedValue(s);
    FormatPadded(Value(s), |s|);
  }
}
