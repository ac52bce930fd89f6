/** Bytes and C strings, as the text-handling cores of the client see them.
    A C string is modelled by its contents, without the terminating zero.

    Here and in the other files a predicate written as a `match` of one case stands for
    a whole invariant: unlike a plain one it is not taken apart where it has to be
    proved, so that a proof that hides it passes it on by name. */
module CString {

  type Byte = b: int | 0 <= b < 256

  const BACKSLASH: Byte := 0x5C
  const STAR: Byte := 0x2A
  const PERCENT: Byte := 0x25
  const QUESTION: Byte := 0x3F

  /** Lower-casing of one byte: only the letters A to Z move. */
  function Fold(c: Byte): Byte {
    if 0x41 <= c <= 0x5A then c + 0x20 else c
  }

  /** The same byte, or the two cases of one letter. */
  predicate SameLetter(a: Byte, b: Byte) {
    a == b || (0x41 <= a <= 0x5A && b == a + 0x20) || (0x61 <= a <= 0x7A && b == a - 0x20)
  }

  lemma FoldIs(a: Byte, b: Byte)
    ensures Fold(a) == Fold(b) <==> SameLetter(a, b)
  {}

  type Text = seq<Byte>

  // ------------------------------------------------------ string comparison

  /** The sign of `strcasecmp`. */
  function Cmp(a: Text, b: Text): (r: int)
    ensures -1 <= r <= 1
  {
    if a == [] then (if b == [] then 0 else -1)
    else if b == [] || Fold(a[0]) > Fold(b[0]) then 1
    else if Fold(a[0]) < Fold(b[0]) then -1
    else Cmp(a[1..], b[1..])
  }

  /** The sign of `strncasecmp`. */
  function NCmp(a: Text, b: Text, n: nat): (r: int)
    ensures -1 <= r <= 1
  {
    if n == 0 then 0
    else if a == [] then (if b == [] then 0 else -1)
    else if b == [] || Fold(a[0]) > Fold(b[0]) then 1
    else if Fold(a[0]) < Fold(b[0]) then -1
    else NCmp(a[1..], b[1..], n - 1)
  }

  predicate Same(a: Text, b: Text) { Cmp(a, b) == 0 }        // `arethesame`

  function Folded(s: Text): Text {
    if s == [] then [] else [Fold(s[0])] + Folded(s[1..])
  }

  predicate IsPrefix(w: Text, s: Text) {
    Folded(w) <= Folded(s)
  }

  lemma {:induction false} SameIsFolded(a: Text, b: Text)
    ensures Same(a, b) <==> Folded(a) == Folded(b)
  {
    if a != [] && b != [] {
      SameIsFolded(a[1..], b[1..]);
      assert Folded(a)[1..] == Folded(a[1..]) && Folded(b)[1..] == Folded(b[1..]);
    }
  }

  lemma {:induction false} Trans(a: Text, b: Text, c: Text)
    ensures Cmp(a, b) <= 0 && Cmp(b, c) <= 0 ==> Cmp(a, c) <= 0
    ensures Cmp(a, b) < 0 && Cmp(b, c) <= 0 ==> Cmp(a, c) < 0
    ensures Cmp(a, b) <= 0 && Cmp(b, c) < 0 ==> Cmp(a, c) < 0
  {
    if a != [] && b != [] && c != [] { Trans(a[1..], b[1..], c[1..]); }
  }

  lemma {:induction false} Anti(a: Text, b: Text)
    ensures Cmp(a, b) == -Cmp(b, a)
  {
    if a != [] && b != [] { Anti(a[1..], b[1..]); }
  }

  lemma {:induction false} PrefixIsZero(w: Text, s: Text)
    ensures NCmp(w, s, |w|) == 0 <==> IsPrefix(w, s)
    ensures Same(w, s) <==> IsPrefix(w, s) && |s| == |w|
  {
    if w != [] && s != [] {
      PrefixIsZero(w[1..], s[1..]);
      assert IsPrefix(w, s) <==> Fold(w[0]) == Fold(s[0]) && Folded(w[1..]) <= Folded(s[1..]) by {
        assert Folded(w)[1..] == Folded(w[1..]) && Folded(s)[1..] == Folded(s[1..]);
      }
    }
  }

  /** Comparison with a prefix goes down as the other side goes up. */
  lemma {:induction false} PrefixOrder(w: Text, a: Text, b: Text)
    requires Cmp(a, b) <= 0
    ensures NCmp(w, a, |w|) >= NCmp(w, b, |w|)
  {
    if w != [] && a != [] && b != [] && Fold(a[0]) == Fold(b[0]) { PrefixOrder(w[1..], a[1..], b[1..]); }
  }

  lemma {:induction false} SameSelf(a: Text)
    ensures Same(a, a)
  {
    if a != [] { SameSelf(a[1..]); }
  }

  /** Equal but for the case of letters, byte by byte. */
  lemma {:induction false} SameMeans(a: Text, b: Text)
    ensures Same(a, b) <==> |a| == |b| && forall i :: 0 <= i < |a| ==> SameLetter(a[i], b[i])
  {
    if a != [] && b != [] {
      SameMeans(a[1..], b[1..]);
      FoldIs(a[0], b[0]);
      assert forall i :: 0 < i < |a| && |a| == |b| ==> a[i] == a[1..][i - 1] && b[i] == b[1..][i - 1];
      if Same(a, b) {
        forall i | 0 <= i < |a| ensures SameLetter(a[i], b[i]) { if i > 0 { assert SameLetter(a[1..][i - 1], b[1..][i - 1]); } }
      }
    }
  }

  /** The place at which two texts part. */
  predicate PartAt(a: Text, b: Text, k: nat) {
    k <= |a| && k <= |b| && (forall i :: 0 <= i < k ==> SameLetter(a[i], b[i])) && (k < |a| && k < |b| ==> !SameLetter(a[k], b[k]))
  }

  /** Before the place at which they part, texts are alike; there the one that has ended
      or has the lower letter is the smaller one, letters counting as small ones. */
  lemma {:induction false} CmpMeans(a: Text, b: Text, k: nat)
    requires PartAt(a, b, k)
    ensures Cmp(a, b) < 0 <==>
              k < |b| && (k == |a| || (if 0x41 <= a[k] <= 0x5A then a[k] + 0x20 else a[k]) < (if 0x41 <= b[k] <= 0x5A then b[k] + 0x20 else b[k]))
    decreases k
  {
    if k > 0 {
      FoldIs(a[0], b[0]);
      assert SameLetter(a[0], b[0]);
      CmpMeans(a[1..], b[1..], k - 1);
    } else if a != [] && b != [] {
      FoldIs(a[0], b[0]);
    }
  }

  /** The bounded comparison looks at no more than n bytes. */
  lemma {:induction false} NCmpMeans(a: Text, b: Text, n: nat)
    ensures NCmp(a, b, n) == Cmp(if |a| < n then a else a[..n], if |b| < n then b else b[..n])
    decreases n
  {
    if n > 0 && a != [] && b != [] {
      var x, y := if |a| < n then a else a[..n], if |b| < n then b else b[..n];
      assert x[1..] == (if |a[1..]| < n - 1 then a[1..] else a[1..][..n - 1]);
      assert y[1..] == (if |b[1..]| < n - 1 then b[1..] else b[1..][..n - 1]);
      NCmpMeans(a[1..], b[1..], n - 1);
    }
  }

  /** The text starts with that one, up to case. */
  predicate Begins(s: Text, w: Text) {
    |s| >= |w| && forall i :: 0 <= i < |w| ==> SameLetter(s[i], w[i])
  }

  lemma NCmpBegins(s: Text, w: Text)
    ensures NCmp(s, w, |w|) == 0 <==> Begins(s, w)
    ensures NCmp(w, s, |w|) == 0 <==> Begins(s, w)
  {
    hide Cmp, NCmp, SameLetter;
    var x := if |s| < |w| then s else s[..|w|];
    NCmpMeans(s, w, |w|);
    NCmpMeans(w, s, |w|);
    assert w[..|w|] == w;
    Anti(x, w);
    SameMeans(x, w);
  }

  const SPACE: Byte := 0x20

  /** A number in base 10, as `%u` and `%d` print it. */
  function Decimal(n: nat): Text {
    (if n < 10 then [] else Decimal(n / 10)) + [0x30 + n % 10]
  }

  /** The number that the digits at the start of s make, on from acc. */
  function DigitsFrom(acc: int, s: Text): int
    decreases |s|
  {
    if s != [] && 0x30 <= s[0] <= 0x39 then DigitsFrom(acc * 10 + (s[0] - 0x30), s[1..]) else acc
  }

  lemma OneDigit(acc: nat, k: nat, rest: Text)
    requires k < 10
    ensures DigitsFrom(acc, [0x30 + k] + rest) == DigitsFrom(acc * 10 + k, rest)
  {
    assert ([0x30 + k] + rest)[1..] == rest;
  }

  lemma NoDigits(n: nat)
    ensures DigitsFrom(n, []) == n
  {}

  /** Digits are read in base 10, up to the first byte that is none. */
  lemma {:induction false} DigitsMean(acc: int, s: Text, d: Byte, rest: Text)
    requires forall i :: 0 <= i < |s| ==> 0x30 <= s[i] <= 0x39
    ensures DigitsFrom(acc, []) == acc
    ensures 0x30 <= d <= 0x39 ==> DigitsFrom(acc, s + [d]) == DigitsFrom(acc, s) * 10 + (d - 0x30)
    ensures !(0x30 <= d <= 0x39) ==> DigitsFrom(acc, s + [d] + rest) == DigitsFrom(acc, s)
    decreases |s|
  {
    if s == [] {
      assert s + [d] == [d] && [d][1..] == [] && (s + [d] + rest)[0] == d;
    } else {
      assert (s + [d])[1..] == s[1..] + [d] && (s + [d] + rest)[1..] == s[1..] + [d] + rest;
      DigitsMean(acc * 10 + (s[0] - 0x30), s[1..], d, rest);
    }
  }

  /** Reading a printed number gives the number. */
  lemma {:induction false} DecimalRead(n: nat, rest: Text)
    ensures DigitsFrom(0, Decimal(n) + rest) == DigitsFrom(n, rest)
  {
    hide DigitsFrom;
    var d := [0x30 + n % 10];
    if n < 10 {
      assert Decimal(n) + rest == d + rest;
      OneDigit(0, n, rest);
    } else {
      DecimalRead(n / 10, d + rest);
      assert Decimal(n) + rest == Decimal(n / 10) + (d + rest);
      OneDigit(n / 10, n % 10, rest);
    }
  }
}
