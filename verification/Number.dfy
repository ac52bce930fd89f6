/** Number printing and reading of src/mvsprintf.c. */
module Number {

  /** A screen cell: a character and the attributes or-ed into it. */
  datatype Cell = Cell(ch: char, attr: nat)

  datatype Flags = Flags(zeropad: bool, sign: bool, plus: bool, space: bool, left: bool, special: bool, small: bool)

  const INT_MAX := 0x7FFF_FFFF

  // ------------------------------------------------------- the reference

  const UPPER := "0123456789ABCDEFGHIJKLMNOPQRSTUVWXYZ"
  const LOWER := "0123456789abcdefghijklmnopqrstuvwxyz"

  function Digit(d: nat, small: bool): char
    requires d < 36
  {
    if small then LOWER[d] else UPPER[d]
  }

  /** The digits of n, most significant first; none for 0. */
  function Ms(n: nat, base: nat): (ds: seq<nat>)
    requires 2 <= base
    ensures forall i :: 0 <= i < |ds| ==> ds[i] < base
  {
    if n == 0 then [] else Ms(n / base, base) + [n % base]
  }

  function DigitsOf(n: nat, base: nat): (ds: seq<nat>)
    requires 2 <= base
    ensures ds != [] && forall i :: 0 <= i < |ds| ==> ds[i] < base
  {
    if n == 0 then [0] else Ms(n, base)
  }

  function Horner(ds: seq<nat>, base: nat): nat {
    if ds == [] then 0 else Horner(ds[..|ds| - 1], base) * base + ds[|ds| - 1]
  }

  /** The digits denote the number. */
  lemma {:induction false} DigitsDenote(n: nat, base: nat)
    requires 2 <= base
    ensures Horner(Ms(n, base), base) == n && Horner(DigitsOf(n, base), base) == n
  {
    hide Horner;
    HornerOne(0, base);
    if n == 0 {
      HornerOne(0, base);
    } else {
      DigitsDenote(n / base, base);
      HornerMore(Ms(n / base, base), n % base, base);
      DivMod(n, base);
    }
  }

  lemma HornerOne(d: nat, base: nat)
    ensures Horner([d], base) == d && Horner([], base) == 0
  {
    assert [d][..0] == [];
  }

  lemma HornerMore(ds: seq<nat>, d: nat, base: nat)
    ensures Horner(ds + [d], base) == Horner(ds, base) * base + d
  {
    assert (ds + [d])[..|ds|] == ds;
  }

  lemma DivMod(n: nat, base: nat)
    requires base > 0
    ensures n / base * base + n % base == n
  {}

  function Pow2(k: nat): nat { if k == 0 then 1 else 2 * Pow2(k - 1) }

  lemma {:induction false} FewDigits(n: nat, base: nat, k: nat)
    requires 2 <= base && n < Pow2(k)
    ensures |Ms(n, base)| <= k
    decreases k
  {
    if n > 0 {
      Halved(n, base);
      FewDigits(n / base, base, k - 1);
    }
  }

  lemma Halved(n: nat, base: nat)
    requires 2 <= base
    ensures 2 * (n / base) <= n
  {
    var q := n / base;
    assert q * base <= n;
    assert q * 2 <= q * base;
  }

  lemma Five(k: nat)
    ensures Pow2(k + 5) == 32 * Pow2(k) && Pow2(0) == 1
  {
    assert Pow2(k + 5) == 2 * Pow2(k + 4) && Pow2(k + 4) == 2 * Pow2(k + 3);
    assert Pow2(k + 3) == 2 * Pow2(k + 2) && Pow2(k + 2) == 2 * Pow2(k + 1);
  }

  /** No number of 31 bits needs more than 31 digits, in any base. */
  lemma AtMost31(n: nat, base: nat)
    requires 2 <= base && n <= INT_MAX
    ensures 1 <= |DigitsOf(n, base)| <= 31
  {
    Five(0);
    Five(5);
    Five(10);
    Five(15);
    Five(20);
    Five(25);
    assert Pow2(31) == 2 * Pow2(30);
    FewDigits(n, base, 31);
  }

  function Max(a: int, b: int): int { if a < b then b else a }

  function Repeat(c: Cell, n: int): (s: seq<Cell>)
    ensures |s| == Max(n, 0) && forall i :: 0 <= i < |s| ==> s[i] == c
    decreases Max(n, 0)
  {
    if n <= 0 then [] else Repeat(c, n - 1) + [c]
  }

  function Cells(s: string, attr: nat): (cs: seq<Cell>)
    ensures |cs| == |s| && forall i :: 0 <= i < |s| ==> cs[i] == Cell(s[i], attr)
  {
    seq(|s|, i requires 0 <= i < |s| => Cell(s[i], attr))
  }

  function SignOf(num: int, f: Flags): string {
    if f.sign && num < 0 then "-" else if f.plus then "+" else if f.space then " " else ""
  }

  function PrefixOf(base: nat, f: Flags): string {
    if !f.special then "" else if base == 8 then "0" else if base == 16 then ['0', Digit(33, f.small)] else ""
  }

  function Magnitude(num: int, f: Flags): int {
    if f.sign && num < 0 then -num else num
  }

  function Chars(ds: seq<nat>, small: bool): (s: string)
    requires forall i :: 0 <= i < |ds| ==> ds[i] < 36
    ensures |s| == |ds| && forall i :: 0 <= i < |s| ==> s[i] == Digit(ds[i], small)
  {
    seq(|ds|, i requires 0 <= i < |ds| => Digit(ds[i], small))
  }

  /** What `number` puts out. */
  function Field(num: int, base: nat, size: int, precision: int, f: Flags, attr: nat): seq<Cell>
    requires 2 <= base <= 36 && Magnitude(num, f) >= 0
  {
    var ds := Chars(DigitsOf(Magnitude(num, f), base), f.small);
    var front := Cells(SignOf(num, f) + PrefixOf(base, f), attr);
    var back := Repeat(Cell('0', attr), precision - |ds|) + Cells(ds, attr);
    var pad := size - |front| - |back|;
    if f.left then front + back + Repeat(Cell(' ', 0), pad)
    else if f.zeropad then front + Repeat(Cell('0', attr), pad) + back
    else Repeat(Cell(' ', 0), pad) + front + back
  }

  /** The width: as wide as asked for, and as wide as needed. */
  lemma FieldWidth(num: int, base: nat, size: int, precision: int, f: Flags, attr: nat)
    requires 2 <= base <= 36 && Magnitude(num, f) >= 0
    ensures |Field(num, base, size, precision, f, attr)| ==
            Max(size, |SignOf(num, f)| + |PrefixOf(base, f)| + Max(precision, |DigitsOf(Magnitude(num, f), base)|))
  {}

  // ------------------------------------------- the field, place by place

  /** What a digit is worth: those above nine are the letters. */
  function Worth(c: char): int {
    if '0' <= c <= '9' then c as int - 0x30
    else if 'A' <= c <= 'Z' then c as int - 0x41 + 10
    else if 'a' <= c <= 'z' then c as int - 0x61 + 10
    else -1
  }

  /** The number that digits make. */
  function Denoted(ds: string, base: nat): int {
    if ds == "" then 0 else Denoted(ds[..|ds| - 1], base) * base + Worth(ds[|ds| - 1])
  }

  lemma DigitWorth(d: nat, small: bool)
    requires d < 36
    ensures Worth(Digit(d, small)) == d
    ensures d >= 10 ==> if small then 'a' <= Digit(d, small) <= 'z' else 'A' <= Digit(d, small) <= 'Z'
  {
    if small { LowerWorth(d); } else { UpperWorth(d); }
  }

  lemma LowerWorth(d: nat)
    requires d < 36
    ensures Worth(LOWER[d]) == d && (d >= 10 ==> 'a' <= LOWER[d] <= 'z')
  {}

  lemma UpperWorth(d: nat)
    requires d < 36
    ensures Worth(UPPER[d]) == d && (d >= 10 ==> 'A' <= UPPER[d] <= 'Z')
  {}

  lemma {:induction false} CharsDenote(ds: seq<nat>, base: nat, small: bool)
    requires forall i :: 0 <= i < |ds| ==> ds[i] < 36
    ensures Denoted(Chars(ds, small), base) == Horner(ds, base)
  {
    hide Digit, Worth;
    if ds != [] {
      var n := |ds| - 1;
      CharsDenote(ds[..n], base, small);
      DigitWorth(ds[n], small);
      assert Chars(ds, small)[..n] == Chars(ds[..n], small);
    }
  }

  /** No zero comes first, except for zero itself. */
  lemma {:induction false} MsStarts(n: nat, base: nat)
    requires 2 <= base && n > 0
    ensures Ms(n, base) != [] && Ms(n, base)[0] > 0
  {
    if n / base > 0 {
      MsStarts(n / base, base);
    } else {
      DivMod(n, base);
      assert Ms(n / base, base) == [];
    }
  }

  /** What stands where in a field: a blanks, the marks, z zeros, the digits, b blanks. */
  ghost predicate Spelt(str: seq<Cell>, a: nat, marks: string, z: nat, ds: string, b: nat, attr: nat) {
    var m := a + |marks|;
    && |str| == m + z + |ds| + b
    && (forall k :: 0 <= k < a ==> str[k] == Cell(' ', 0))
    && (forall k :: 0 <= k < |marks| ==> str[a + k] == Cell(marks[k], attr))
    && (forall k :: m <= k < m + z ==> str[k] == Cell('0', attr))
    && (forall k :: 0 <= k < |ds| ==> str[m + z + k] == Cell(ds[k], attr))
    && (forall k :: m + z + |ds| <= k < |str| ==> str[k] == Cell(' ', 0))
  }

  lemma DigitsMean(n: nat, base: nat, small: bool)
    requires 2 <= base <= 36
    ensures var ds := Chars(DigitsOf(n, base), small);
            && ds != "" && Denoted(ds, base) == n && (ds[0] == '0' ==> ds == "0")
            && forall k :: 0 <= k < |ds| ==>
                 0 <= Worth(ds[k]) < base && (small ==> !('A' <= ds[k] <= 'Z')) && (!small ==> !('a' <= ds[k] <= 'z'))
  {
    hide Digit, Denoted, Horner;
    var ds := DigitsOf(n, base);
    DigitsDenote(n, base);
    if n > 0 { MsStarts(n, base); }
    CharsDenote(ds, base, small);
    forall k | 0 <= k < |ds|
      ensures Worth(Digit(ds[k], small)) == ds[k]
      ensures ds[k] >= 10 ==> if small then 'a' <= Digit(ds[k], small) <= 'z' else 'A' <= Digit(ds[k], small) <= 'Z'
    {
      DigitWorth(ds[k], small);
    }
  }

  lemma MarksMean(num: int, base: nat, f: Flags)
    requires num < 0 ==> f.sign
    ensures SignOf(num, f) + PrefixOf(base, f)
            == (if num < 0 then "-" else if f.plus then "+" else if f.space then " " else "")
               + (if f.special && base == 8 then "0" else if f.special && base == 16 then (if f.small then "0x" else "0X") else "")
  {
    MarkOf16();
    hide Digit;
  }

  lemma MarkOf16()
    ensures ['0', Digit(33, true)] == "0x" && ['0', Digit(33, false)] == "0X"
  {}

  lemma PartsSpelt(a: nat, marks: string, z: nat, ds: string, b: nat, attr: nat, str: seq<Cell>)
    requires str == Repeat(Cell(' ', 0), a) + Cells(marks, attr) + Repeat(Cell('0', attr), z) + Cells(ds, attr)
                    + Repeat(Cell(' ', 0), b)
    ensures Spelt(str, a, marks, z, ds, b, attr)
  {
    hide Repeat, Cells;
  }

  lemma ZerosJoin(c: Cell, n: nat, m: nat)
    ensures Repeat(c, n) + Repeat(c, m) == Repeat(c, n + m)
  {
    hide Repeat;
  }

  /** The field of a number: its sign and the mark of its base, its digits, without a zero
      in front, and as many zeros as precision asks for.  Blanks fill it up to the width on
      the left, or on the right if it is flushed left, or else zeros behind the sign. */
  lemma FieldMeans(num: int, base: nat, size: int, precision: int, f: Flags, attr: nat)
    returns (a: nat, marks: string, z: nat, ds: string, b: nat)
    requires 2 <= base <= 36 && (num < 0 ==> f.sign)
    ensures Spelt(Field(num, base, size, precision, f, attr), a, marks, z, ds, b, attr)
    ensures marks == (if num < 0 then "-" else if f.plus then "+" else if f.space then " " else "")
                     + (if f.special && base == 8 then "0" else if f.special && base == 16 then (if f.small then "0x" else "0X") else "")
    ensures ds != "" && Denoted(ds, base) == (if num < 0 then -num else num) && (ds[0] == '0' ==> ds == "0")
    ensures forall k :: 0 <= k < |ds| ==>
              0 <= Worth(ds[k]) < base && (f.small ==> !('A' <= ds[k] <= 'Z')) && (!f.small ==> !('a' <= ds[k] <= 'z'))
    ensures a + |marks| + z + |ds| + b == Max(size, |marks| + Max(precision, |ds|))
    ensures (f.left ==> a == 0) && (!f.left ==> b == 0) && (f.zeropad && !f.left ==> a == 0)
    ensures z >= precision - |ds| && (f.left || !f.zeropad ==> z == Max(precision - |ds|, 0))
  {
    hide Digit, Worth, Denoted, DigitsOf, Chars, Repeat, Cells, SignOf, PrefixOf;
    var n := Magnitude(num, f);
    DigitsMean(n, base, f.small);
    MarksMean(num, base, f);
    ds, marks := Chars(DigitsOf(n, base), f.small), SignOf(num, f) + PrefixOf(base, f);
    var pad := Max(size - |marks| - Max(precision, |ds|), 0);
    var zeros := Max(precision - |ds|, 0);
    a := if f.left || f.zeropad then 0 else pad;
    b := if f.left then pad else 0;
    z := if f.left || !f.zeropad then zeros else pad + zeros;
    ZerosJoin(Cell('0', attr), pad, zeros);
    RepeatMax(Cell('0', attr), precision - |ds|);
    RepeatMax(Cell('0', attr), size - |marks| - Max(precision, |ds|));
    RepeatMax(Cell(' ', 0), size - |marks| - Max(precision, |ds|));
    FieldIs(num, base, size, precision, f, attr, ds, marks, a, z, b);
    PartsSpelt(a, marks, z, ds, b, attr, Field(num, base, size, precision, f, attr));
  }

  /** The three ways to fill a field up are one. */
  lemma FieldIs(num: int, base: nat, size: int, precision: int, f: Flags, attr: nat, ds: string, marks: string, a: nat, z: nat, b: nat)
    requires 2 <= base <= 36 && Magnitude(num, f) >= 0
    requires ds == Chars(DigitsOf(Magnitude(num, f), base), f.small) && marks == SignOf(num, f) + PrefixOf(base, f)
    requires var pad := Max(size - |marks| - Max(precision, |ds|), 0); var zeros := Max(precision - |ds|, 0);
             && a == (if f.left || f.zeropad then 0 else pad) && b == (if f.left then pad else 0)
             && z == (if f.left || !f.zeropad then zeros else pad + zeros)
    ensures Field(num, base, size, precision, f, attr)
            == Repeat(Cell(' ', 0), a) + Cells(marks, attr) + Repeat(Cell('0', attr), z) + Cells(ds, attr) + Repeat(Cell(' ', 0), b)
  {
    hide Digit, DigitsOf, Chars, Repeat, Cells, SignOf, PrefixOf;
  }

  // ------------------------------------------------------------ reading back

  predicate IsDigit(c: char) { '0' <= c <= '9' }

  /** `skip_atoi`, on from i */
  function SkipAtoi(i: nat, s: string): nat
    decreases |s|
  {
    if s != [] && IsDigit(s[0]) then SkipAtoi(i * 10 + (s[0] as int - '0' as int), s[1..]) else i
  }

  predicate Digits10(ds: seq<nat>) { forall i :: 0 <= i < |ds| ==> ds[i] < 10 }

  lemma {:induction false} ReadsDigits(i: nat, ds: seq<nat>, small: bool, rest: string)
    requires Digits10(ds)
    ensures SkipAtoi(i, Chars(ds, small) + rest) == SkipAtoi(Append(i, ds), rest)
    decreases |ds|
  {
    hide SkipAtoi, Digit;
    if ds == [] {
      assert Chars(ds, small) + rest == rest;
    } else {
      var n := |ds| - 1;
      var c := Digit(ds[n], small);
      CharsApart(ds, small, rest);
      ReadsDigits(i, ds[..n], small, [c] + rest);
      ReadsOne(Append(i, ds[..n]), ds[n], small, rest);
    }
  }

  lemma CharsApart(ds: seq<nat>, small: bool, rest: string)
    requires Digits10(ds) && ds != []
    ensures var n := |ds| - 1; Chars(ds, small) + rest == Chars(ds[..n], small) + ([Digit(ds[n], small)] + rest)
  {
    hide Digit;
  }

  lemma ReadsOne(i: nat, d: nat, small: bool, rest: string)
    requires d < 10
    ensures SkipAtoi(i, [Digit(d, small)] + rest) == SkipAtoi(i * 10 + d, rest)
  {
    DigitIs(d, small);
    assert ([Digit(d, small)] + rest)[1..] == rest;
  }

  lemma DigitIs(d: nat, small: bool)
    requires d < 10
    ensures IsDigit(Digit(d, small)) && Digit(d, small) as int - '0' as int == d
  {}

  /** The number i followed by the digits ds, in base 10. */
  function Append(i: nat, ds: seq<nat>): nat {
    if ds == [] then i else Append(i, ds[..|ds| - 1]) * 10 + ds[|ds| - 1]
  }

  lemma {:induction false} AppendIsHorner(ds: seq<nat>)
    ensures Append(0, ds) == Horner(ds, 10)
  {
    if ds != [] { AppendIsHorner(ds[..|ds| - 1]); }
  }

  lemma {:induction false} ReadsZeros(z: int, rest: string)
    ensures SkipAtoi(0, seq(Max(z, 0), _ => '0') + rest) == SkipAtoi(0, rest)
    decreases Max(z, 0)
  {
    var s := seq(Max(z, 0), _ => '0') + rest;
    if z <= 0 {
      assert s == rest;
    } else {
      assert s[1..] == seq(Max(z - 1, 0), _ => '0') + rest;
      ReadsZeros(z - 1, rest);
    }
  }

  function Text(cs: seq<Cell>): (s: string)
    ensures |s| == |cs| && forall i :: 0 <= i < |s| ==> s[i] == cs[i].ch
  {
    seq(|cs|, i requires 0 <= i < |cs| => cs[i].ch)
  }

  /** Printing in base 10 without a sign and without blanks in front, then reading,
      gives the number back. */
  lemma PrintThenRead(num: nat, size: int, precision: int, f: Flags, attr: nat)
    requires !f.plus && !f.space && !f.special
    requires f.left || f.zeropad || size <= Max(precision, |DigitsOf(num, 10)|)
    ensures SkipAtoi(0, Text(Field(num, 10, size, precision, f, attr))) == num
  {
    hide Horner, Append, SkipAtoi, Digit, Field, Text, Chars;
    var ds := DigitsOf(num, 10);
    var z, pad := Max(precision - |ds|, 0), Max(size - Max(precision, |ds|), 0);
    DigitsDenote(num, 10);
    AppendIsHorner(ds);
    var zeros := if f.left || !f.zeropad then z else pad + z;
    var tail := if f.left then seq(pad, _ => ' ') else [];
    PlainText(num, size, precision, f, attr);
    ReadsZeros(zeros, Chars(ds, f.small) + tail);
    ReadsDigits(0, ds, f.small, tail);
    StopsAt(num, tail);
  }

  lemma PlainText(num: nat, size: int, precision: int, f: Flags, attr: nat)
    requires !f.plus && !f.space && !f.special
    requires f.left || f.zeropad || size <= Max(precision, |DigitsOf(num, 10)|)
    ensures var ds := DigitsOf(num, 10);
      var z, pad := Max(precision - |ds|, 0), Max(size - Max(precision, |ds|), 0);
      Text(Field(num, 10, size, precision, f, attr)) ==
        seq(if f.left || !f.zeropad then z else pad + z, _ => '0') + (Chars(ds, f.small) + if f.left then seq(pad, _ => ' ') else [])
  {
    hide DigitsOf, Repeat, Digit, Chars, Text, Cells, Field;
    var ds := DigitsOf(num, 10);
    PlainField(num, size, precision, f, attr);
    PlainParts(f, size - Max(precision, |ds|), precision - |ds|, Chars(ds, f.small), attr);
  }

  /** A field without sign and prefix. */
  lemma PlainField(num: nat, size: int, precision: int, f: Flags, attr: nat)
    requires !f.plus && !f.space && !f.special
    requires f.left || f.zeropad || size <= Max(precision, |DigitsOf(num, 10)|)
    ensures var ds := DigitsOf(num, 10);
      var pad := size - Max(precision, |ds|);
      var zero, blank, digits := Repeat(Cell('0', attr), precision - |ds|), Repeat(Cell(' ', 0), pad), Cells(Chars(ds, f.small), attr);
      var lead := if f.left then [] else if f.zeropad then Repeat(Cell('0', attr), pad) else blank;
      && Field(num, 10, size, precision, f, attr) == lead + (zero + digits) + (if f.left then blank else [])
      && (!f.left && !f.zeropad ==> blank == [])
  {
    hide DigitsOf, Digit;
    var ds := DigitsOf(num, 10);
    assert Cells(SignOf(num, f) + PrefixOf(10, f), attr) == [];
    assert |Cells(Chars(ds, f.small), attr)| == |ds|;
  }

  /** The parts of a plain field, as text. */
  lemma PlainParts(f: Flags, pad: int, z: int, cs: string, attr: nat)
    requires !f.left && !f.zeropad ==> Repeat(Cell(' ', 0), pad) == []
    ensures var zero, blank, digits := Repeat(Cell('0', attr), z), Repeat(Cell(' ', 0), pad), Cells(cs, attr);
      var lead := if f.left then [] else if f.zeropad then Repeat(Cell('0', attr), pad) else blank;
      Text(lead + (zero + digits) + if f.left then blank else []) ==
        seq(if f.left || !f.zeropad then Max(z, 0) else Max(pad, 0) + Max(z, 0), _ => '0') + (cs + if f.left then seq(Max(pad, 0), _ => ' ') else [])
  {
    hide Repeat, Text, Cells;
    var zero, blank, digits := Repeat(Cell('0', attr), z), Repeat(Cell(' ', 0), pad), Cells(cs, attr);
    TextRepeat(Cell('0', attr), z);
    TextRepeat(Cell(' ', 0), pad);
    TextRepeat(Cell('0', attr), pad);
    TextCells(cs, attr);
    TextApart(zero, digits);
    if f.left {
      assert [] + (zero + digits) + blank == (zero + digits) + blank;
      TextApart(zero + digits, blank);
      assert Text(zero) + cs + Text(blank) == Text(zero) + (cs + Text(blank));
    } else if f.zeropad {
      var lead := Repeat(Cell('0', attr), pad);
      assert [] + lead + (zero + digits) == lead + (zero + digits);
      TextApart(lead, zero + digits);
      assert Text(lead) + (Text(zero) + cs) == seq(Max(pad, 0) + Max(z, 0), _ => '0') + (cs + []);
    } else {
      assert blank == [];
      assert [] + [] + (zero + digits) == zero + digits;
      assert cs + [] == cs;
    }
  }

  lemma TextApart(a: seq<Cell>, b: seq<Cell>)
    ensures Text(a + b) == Text(a) + Text(b)
  {}

  lemma TextRepeat(c: Cell, n: int)
    ensures Text(Repeat(c, n)) == seq(Max(n, 0), _ => c.ch)
  {}

  lemma TextCells(s: string, attr: nat)
    ensures Text(Cells(s, attr)) == s
  {}

  lemma StopsAt(n: nat, tail: string)
    requires tail == [] || !IsDigit(tail[0])
    ensures SkipAtoi(n, tail) == n
  {}

  // ------------------------------------------------------------ the program

  /** `number`; a base that it does not know gives nothing.  `tmp` holds 36 cells. */
  method Print(num: int, base: nat, size0: int, precision0: int, f: Flags, attr: nat) returns (str: seq<Cell>)
    requires -INT_MAX <= num <= INT_MAX && (num < 0 ==> f.sign)
    ensures if 2 <= base <= 36 then str == Field(num, base, size0, precision0, f, attr) else str == []
  {
    hide Laid, Field, Chars, DigitsOf, Digit, Repeat;
    str := [];
    if base < 2 || base > 36 { return; }
    var zeropad := f.zeropad && !f.left;
    var n, size, precision := num, size0, precision0;
    if f.sign && num < 0 { n := -num; }
    var sign := SignOf(num, f);
    if sign != "" { size := size - 1; }
    if f.special {
      if base == 16 { size := size - 2; }
      else if base == 8 { size := size - 1; }
    }
    var tmp := new char[36];
    var i := ToDigits(n, base, f.small, tmp);
    if i > precision { precision := i; }
    size := size - precision;
    ghost var ds := Chars(DigitsOf(n, base), f.small);
    var prefix := PutPrefix(base, f);
    str := Emit(sign, prefix, f.left, zeropad, tmp, i, size, precision, attr, ds);
    Layout(num, base, size0, precision0, f, attr, str);
  }

  method PutPrefix(base: nat, f: Flags) returns (prefix: string)
    ensures prefix == PrefixOf(base, f)
  {
    prefix := "";
    if f.special {
      if base == 8 { prefix := "0"; }
      else if base == 16 { prefix := ['0', Digit(33, f.small)]; }
    }
  }

  /** The half of `number` that writes: blanks, sign, prefix, padding, zeros,
      digits, blanks. */
  method Emit(sign: string, prefix: string, left: bool, zeropad: bool, tmp: array<char>, i: nat, size0: int, precision: int, attr: nat, ghost ds: string)
    returns (str: seq<Cell>)
    requires i == |ds| <= tmp.Length && i <= precision && forall k :: 0 <= k < i ==> tmp[k] == ds[i - 1 - k]
    requires left ==> !zeropad
    ensures str == Laid(sign, prefix, left, zeropad, size0, precision - i, ds, attr)
  {
    hide Repeat, Cells;
    var c := if zeropad then Cell('0', attr) else Cell(' ', attr);
    var size := size0;
    str := [];
    if !(zeropad || left) { str, size := Fill(str, Cell(' ', 0), size); }
    str := str + Cells(sign, attr);
    str := str + Cells(prefix, attr);
    if !left { str, size := Fill(str, c, size); }
    var rest;
    str, rest := Fill(str, Cell('0', attr), precision - i);
    str := Backwards(str, tmp, i, attr, ds);
    str, size := Fill(str, Cell(' ', 0), size);
    NoRepeat(c, size0);
  }

  function Laid(sign: string, prefix: string, left: bool, zero: bool, pad: int, zeros: int, ds: string, attr: nat): seq<Cell> {
    (if left || zero then [] else Repeat(Cell(' ', 0), pad)) + Cells(sign, attr) + Cells(prefix, attr)
    + (if zero then Repeat(Cell('0', attr), pad) else []) + Repeat(Cell('0', attr), zeros) + Cells(ds, attr)
    + (if left then Repeat(Cell(' ', 0), pad) else [])
  }

  lemma NoRepeat(c: Cell, n: int)
    ensures forall k :: k <= 0 ==> Repeat(c, k) == [] && Repeat(Cell(' ', 0), k) == []
  {}

  /** How the parts of the output make up the field. */
  lemma Layout(num: int, base: nat, size: int, precision: int, f: Flags, attr: nat, all: seq<Cell>)
    requires 2 <= base <= 36 && Magnitude(num, f) >= 0
    requires var ds := Chars(DigitsOf(Magnitude(num, f), base), f.small);
      var pad := size - |SignOf(num, f)| - |PrefixOf(base, f)| - Max(precision, |ds|);
      all == Laid(SignOf(num, f), PrefixOf(base, f), f.left, f.zeropad && !f.left, pad, Max(precision, |ds|) - |ds|, ds, attr)
    ensures all == Field(num, base, size, precision, f, attr)
  {
    hide Chars, DigitsOf, PrefixOf, SignOf, Repeat, Cells, Digit, Laid;
    var ds := Chars(DigitsOf(Magnitude(num, f), base), f.small);
    assert Cells(SignOf(num, f) + PrefixOf(base, f), attr) == Cells(SignOf(num, f), attr) + Cells(PrefixOf(base, f), attr);
    RepeatMax(Cell('0', attr), precision - |ds|);
    LaidIs(SignOf(num, f), PrefixOf(base, f), f.left, f.zeropad && !f.left,
           size - |SignOf(num, f)| - |PrefixOf(base, f)| - Max(precision, |ds|), Max(precision, |ds|) - |ds|, ds, attr);
  }

  lemma RepeatMax(c: Cell, n: int)
    ensures Repeat(c, n) == Repeat(c, Max(n, 0)) && |Repeat(c, n)| == Max(n, 0)
  {}

  lemma LaidIs(sign: string, prefix: string, left: bool, zero: bool, pad: int, zeros: int, ds: string, attr: nat)
    requires left ==> !zero
    ensures var front := Cells(sign, attr) + Cells(prefix, attr);
      var back := Repeat(Cell('0', attr), zeros) + Cells(ds, attr);
      Laid(sign, prefix, left, zero, pad, zeros, ds, attr) ==
        if left then front + back + Repeat(Cell(' ', 0), pad)
        else if zero then front + Repeat(Cell('0', attr), pad) + back
        else Repeat(Cell(' ', 0), pad) + front + back
  {
    hide Repeat, Cells;
  }

  /** `while (size-- > 0) *str++ = c` */
  method Fill(str0: seq<Cell>, c: Cell, size0: int) returns (str: seq<Cell>, size: int)
    ensures str == str0 + Repeat(c, size0) && size < 0 && (size0 <= 0 ==> size == size0 - 1)
  {
    str, size := str0, size0;
    while size > 0
      invariant size <= Max(size0, 0) || size == size0
      invariant str == str0 + Repeat(c, size0 - Max(size, 0)) && (size0 <= 0 ==> size == size0)
    {
      str := str + [c];
      size := size - 1;
    }
    size := size - 1;
  }

  /** The loop that fills `tmp`, least significant digit first. */
  method ToDigits(num: nat, base: nat, small: bool, tmp: array<char>) returns (i: nat)
    requires 2 <= base <= 36 && num <= INT_MAX && tmp.Length == 36
    modifies tmp
    ensures var ds := DigitsOf(num, base);
            i == |ds| <= 31 && forall k :: 0 <= k < i ==> tmp[k] == Digit(ds[i - 1 - k], small)
  {
    hide Digit;
    AtMost31(num, base);
    i := 0;
    var n: nat := num;
    if n == 0 {
      tmp[0], i := Digit(0, small), 1;
      return;
    }
    ghost var ds := Ms(num, base);
    while n != 0
      invariant i <= |ds| && Ms(n, base) == ds[..|ds| - i]
      invariant forall k :: 0 <= k < i ==> tmp[k] == Digit(ds[|ds| - 1 - k], small)
      decreases n
    {
      tmp[i] := Digit(n % base, small);
      Smaller(n, base);
      n, i := n / base, i + 1;
    }
  }

  /** `while (i-- > 0) *str++ = tmp[i]` */
  method Backwards(str: seq<Cell>, tmp: array<char>, n: nat, attr: nat, ghost ds: string) returns (s: seq<Cell>)
    requires n == |ds| <= tmp.Length && forall k :: 0 <= k < n ==> tmp[k] == ds[n - 1 - k]
    ensures s == str + Cells(ds, attr)
  {
    s := str;
    var i: int := n;
    assert Cells(ds[..0], attr) == [];
    while i > 0
      invariant 0 <= i <= n && s == str + Cells(ds[..n - i], attr)
    {
      i := i - 1;
      assert tmp[i] == ds[n - 1 - i];
      assert Cells(ds[..n - i], attr) == Cells(ds[..n - i - 1], attr) + [Cell(tmp[i], attr)];
      s := s + [Cell(tmp[i], attr)];
    }
    assert ds[..n] == ds;
  }

  lemma Smaller(n: nat, base: nat)
    requires n > 0 && base >= 2
    ensures 0 <= n / base < n
  {}
}
