/** Channel modes as text: `RecordChanMode` and `ParseChanmode` of src/chanrec.c.
    The reader takes each parameter out of the string that it is still scanning. */
module ChanMode {
  import opened CString

  const KEY: Byte := 0x6B        // k
  const LIMIT: Byte := 0x6C      // l
  const SIGN: Byte := 0x2B       // +

  const A: Byte := 0x61
  const I: Byte := 0x69
  const M: Byte := 0x6D
  const N: Byte := 0x6E
  const S: Byte := 0x73
  const T: Byte := 0x74
  const P: Byte := 0x70
  const Q: Byte := 0x71

  predicate IsFlag(c: Byte) { c == A || c == I || c == M || c == N || c == S || c == T || c == P || c == Q }

  /** A channel's mode: the flags that are set, the key ([] for none) and the limit
      (0 for none). */
  datatype Mode = Mode(flags: set<Byte>, key: Text, limit: int)

  // ------------------------------------------------------- the reference

  /** `atoi`, for what no integer overflows on */
  function Atoi(s: Text): int {
    if s != [] && IsBlankByte(s[0]) then Atoi(s[1..])
    else if s != [] && s[0] == 0x2D then -DigitsFrom(0, s[1..])
    else if s != [] && s[0] == 0x2B then DigitsFrom(0, s[1..])
    else DigitsFrom(0, s)
  }

  predicate IsBlankByte(c: Byte) { c == 0x20 || 9 <= c <= 13 }

  /** What mode letters mean, each k and l taking the next parameter. */
  function Read(letters: Text, params: seq<Text>, was: Mode): Mode
    decreases |letters|
  {
    if letters == [] then was
    else
      var c := letters[0];
      if c == KEY && params != [] then Read(letters[1..], params[1..], was.(key := params[0]))
      else if c == LIMIT && params != [] then Read(letters[1..], params[1..], was.(limit := Atoi(params[0])))
      else Read(letters[1..], params, if IsFlag(c) then was.(flags := was.flags + {c}) else was)
  }

  /** How many of the letters take a parameter. */
  function Takes(letters: Text): nat {
    if letters == [] then 0 else (if letters[0] == KEY || letters[0] == LIMIT then 1 else 0) + Takes(letters[1..])
  }

  lemma {:induction false} TakesCounts(letters: Text)
    ensures Takes(letters) == multiset(letters)[0x6B] + multiset(letters)[0x6C]
  {
    if letters != [] {
      TakesCounts(letters[1..]);
      assert letters == [letters[0]] + letters[1..];
    }
  }

  /** The last place of a letter. */
  predicate LastOf(letters: Text, c: Byte, i: nat) {
    i < |letters| && letters[i] == c && c !in letters[i + 1..]
  }

  lemma LastOfRest(letters: Text, c: Byte)
    requires letters != []
    ensures forall i: nat :: i > 0 && LastOf(letters, c, i) ==> LastOf(letters[1..], c, i - 1)
    ensures LastOf(letters, c, 0) ==> c !in letters[1..]
    ensures c in letters <==> c == letters[0] || c in letters[1..]
  {
    forall i: nat | i > 0 && LastOf(letters, c, i) ensures LastOf(letters[1..], c, i - 1) {
      assert letters[1..][i..] == letters[i + 1..];
    }
  }

  lemma TakesRest(letters: Text, i: nat)
    requires 0 < i <= |letters|
    ensures Takes(letters[..i]) == (if letters[0] == KEY || letters[0] == LIMIT then 1 else 0) + Takes(letters[1..][..i - 1])
  {
    assert letters[..i][1..] == letters[1..][..i - 1];
  }

  lemma {:induction false} ReadIs(letters: Text, params: seq<Text>, was: Mode)
    requires Takes(letters) <= |params|
    ensures var r := Read(letters, params, was);
            && r.flags == was.flags + (set c | c in letters && IsFlag(c))
            && (KEY !in letters ==> r.key == was.key) && (LIMIT !in letters ==> r.limit == was.limit)
    ensures forall i: nat :: LastOf(letters, KEY, i) ==>
              Takes(letters[..i]) < |params| && Read(letters, params, was).key == params[Takes(letters[..i])]
    ensures forall i: nat :: LastOf(letters, LIMIT, i) ==>
              Takes(letters[..i]) < |params| && Read(letters, params, was).limit == Atoi(params[Takes(letters[..i])])
    decreases |letters|
  {
    hide Atoi, LastOf;
    if letters == [] {
      NoneLast(KEY);
      NoneLast(LIMIT);
      assert was.flags + (set c | c in letters && IsFlag(c)) == was.flags;
    } else {
      var c := letters[0];
      var takes := c == KEY || c == LIMIT;
      var now := if c == KEY then was.(key := params[0])
                 else if c == LIMIT then was.(limit := Atoi(params[0]))
                 else if IsFlag(c) then was.(flags := was.flags + {c}) else was;
      var ps := if takes then params[1..] else params;
      assert Read(letters, params, was) == Read(letters[1..], ps, now);
      ReadIs(letters[1..], ps, now);
      LastOfRest(letters, KEY);
      LastOfRest(letters, LIMIT);
      assert now.flags + (set x | x in letters[1..] && IsFlag(x)) == was.flags + (set x | x in letters && IsFlag(x));
      forall i: nat | LastOf(letters, KEY, i) || LastOf(letters, LIMIT, i)
        ensures i > 0 ==> i < |letters| && Takes(letters[..i]) == (if takes then 1 else 0) + Takes(letters[1..][..i - 1])
        ensures i == 0 ==> Takes(letters[..i]) == 0
      {
        LastIsIn(letters, KEY, i);
        LastIsIn(letters, LIMIT, i);
        if i > 0 { TakesRest(letters, i); }
      }
      LastIsIn(letters, KEY, 0);
      LastIsIn(letters, LIMIT, 0);
    }
  }

  /** Every flag among the letters is set; the last k has the key and the last l the
      limit, each from the parameter that is its own, as every k and l takes one. */
  ghost predicate Meant(letters: Text, params: seq<Text>, r: Mode) {
    match r
    case Mode(flags, key, limit) =>
      && (forall c :: c in flags <==> c in letters && c in {0x61, 0x69, 0x6D, 0x6E, 0x73, 0x74, 0x70, 0x71})
      && (0x6B !in letters ==> key == []) && (0x6C !in letters ==> limit == 0)
      && (forall i: nat :: LastOf(letters, 0x6B, i) ==>
            var n := multiset(letters[..i])[0x6B] + multiset(letters[..i])[0x6C]; n < |params| && key == params[n])
      && (forall i: nat :: LastOf(letters, 0x6C, i) ==>
            var n := multiset(letters[..i])[0x6B] + multiset(letters[..i])[0x6C]; n < |params| && limit == Atoi(params[n]))
  }

  lemma ReadMeans(letters: Text, params: seq<Text>)
    requires Takes(letters) == |params|
    ensures Meant(letters, params, Read(letters, params, NOTHING))
  {
    hide Atoi, Takes, Read;
    ReadIs(letters, params, NOTHING);
    forall i: nat | i <= |letters| ensures Takes(letters[..i]) == multiset(letters[..i])[0x6B] + multiset(letters[..i])[0x6C] {
      TakesCounts(letters[..i]);
    }
  }

  predicate Blanks(s: Text) {
    match s case _ => forall i :: 0 <= i < |s| ==> IsBlankByte(s[i])
  }

  /** Blanks in front are skipped, and a sign counts. */
  lemma {:induction false} AtoiMeans(blanks: Text, s: Text)
    requires Blanks(blanks) && (s != [] ==> !IsBlankByte(s[0]))
    ensures Atoi(blanks + s) ==
      if s != [] && s[0] == 0x2D then -DigitsFrom(0, s[1..])
      else if s != [] && s[0] == 0x2B then DigitsFrom(0, s[1..])
      else DigitsFrom(0, s)
    decreases |blanks|
  {
    hide DigitsFrom;
    if blanks == [] {
      assert blanks + s == s;
    } else {
      assert (blanks + s)[1..] == blanks[1..] + s;
      AtoiMeans(blanks[1..], s);
    }
  }

  lemma NoneLast(c: Byte)
    ensures forall i: nat :: !LastOf([], c, i)
  {}

  lemma LastIsIn(letters: Text, c: Byte, i: nat)
    ensures LastOf(letters, c, i) ==> i < |letters| && letters[i] == c
  {}

  function Join(params: seq<Text>): Text {
    if params == [] then [] else if |params| == 1 then params[0] else params[0] + [SPACE] + Join(params[1..])
  }

  /** The letters, and behind a space the parameters. */
  function Spelled(first: Byte, letters: Text, params: seq<Text>): Text {
    [first] + letters + if params == [] then [] else [SPACE] + Join(params)
  }

  predicate Plain(s: Text) { 0 !in s && SPACE !in s }

  predicate AllPlain(params: seq<Text>) {
    forall i :: 0 <= i < |params| ==> Plain(params[i])
  }

  function Opt(b: bool, c: Byte): Text { if b then [c] else [] }

  /** The order in which `ParseChanmode` looks at the letters. */
  const ORDER: Text := [A, I, LIMIT, M, N, S, T, P, Q]

  predicate Shows(m: Mode, c: Byte) {
    if c == LIMIT then m.limit > 0 else c in m.flags
  }

  function Shown(m: Mode, order: Text): Text {
    if order == [] then [] else Opt(Shows(m, order[0]), order[0]) + Shown(m, order[1..])
  }

  function KeyLetters(m: Mode): Text {
    if m.key == [] then [] else Opt(m.flags != {}, SIGN) + [KEY]
  }

  /** The letters that `ParseChanmode` writes after the sign. */
  function Letters(m: Mode): Text {
    Shown(m, ORDER) + KeyLetters(m)
  }

  function Params(m: Mode): seq<Text> {
    (if m.key == [] then [] else [m.key]) + if m.limit > 0 then [Decimal(m.limit)] else []
  }

  function Printed(m: Mode): Text {
    Spelled(SIGN, Letters(m), Params(m))
  }

  // ---------------------------------------------------------- the round trip

  lemma ReadOpt(b: bool, c: Byte, rest: Text, params: seq<Text>, was: Mode)
    requires IsFlag(c) || c == SIGN
    ensures Read(Opt(b, c) + rest, params, was) == Read(rest, params, if b && IsFlag(c) then was.(flags := was.flags + {c}) else was)
  {
    if b {
      assert ([c] + rest)[1..] == rest;
    } else {
      assert [] + rest == rest;
    }
  }

  lemma ReadLimit(b: bool, rest: Text, params: seq<Text>, was: Mode)
    requires b ==> params != []
    ensures Read(Opt(b, LIMIT) + rest, params, was) ==
            if b then Read(rest, params[1..], was.(limit := Atoi(params[0]))) else Read(rest, params, was)
  {
    if b {
      assert ([LIMIT] + rest)[1..] == rest;
    } else {
      assert [] + rest == rest;
    }
  }

  lemma {:induction false} DecimalPlain(n: nat)
    ensures Plain(Decimal(n)) && Decimal(n) != [] && 0x30 <= Decimal(n)[0] <= 0x39
  {
    if n >= 10 { DecimalPlain(n / 10); }
  }

  lemma AtoiPrinted(n: nat)
    ensures Atoi(Decimal(n)) == n
  {
    DecimalPlain(n);
    DecimalRead(n, []);
    NoDigits(n);
    assert Decimal(n) + [] == Decimal(n);
  }

  lemma ReadKey(b: bool, params: seq<Text>, was: Mode)
    requires params != []
    ensures Read(Opt(b, SIGN) + [KEY], params, was) == was.(key := params[0])
  {
    ReadOpt(b, SIGN, [KEY], params, was);
    assert [KEY][1..] == [];
  }

  /** What a channel's mode can be: known flags and no negative limit. */
  predicate Sound(m: Mode) {
    && (forall c :: c in m.flags ==> IsFlag(c)) && m.limit >= 0 && Plain(m.key)
  }

  const NOTHING := Mode({}, [], 0)

  /** Different letters, each a flag or the limit's. */
  predicate Distinct(order: Text) {
    && (forall i :: 0 <= i < |order| ==> IsFlag(order[i]) || order[i] == LIMIT)
    && (forall i, j :: 0 <= i < j < |order| ==> order[i] != order[j])
  }

  function Among(m: Mode, order: Text): set<Byte> {
    set c | c in order && c != LIMIT && c in m.flags
  }

  predicate TakesLimit(m: Mode, order: Text) { LIMIT in order && m.limit > 0 }

  /** The letters shown in some order, read. */
  lemma {:induction false} ReadShown(m: Mode, order: Text, tail: Text, ps: seq<Text>, was: Mode)
    requires Distinct(order) && (TakesLimit(m, order) ==> ps != [])
    ensures Read(Shown(m, order) + tail, ps, was) ==
            Read(tail, if TakesLimit(m, order) then ps[1..] else ps,
                 Mode(was.flags + Among(m, order), was.key, if TakesLimit(m, order) then Atoi(ps[0]) else was.limit))
    decreases |order|
  {
    hide Read, Atoi;
    if order == [] {
      assert [] + tail == tail && was.flags + Among(m, order) == was.flags;
    } else {
      var c, rest := order[0], order[1..];
      assert forall x :: x in order <==> x == c || x in rest;
      assert c !in rest;
      assert Shown(m, order) + tail == Opt(Shows(m, c), c) + (Shown(m, rest) + tail);
      if c == LIMIT {
        ReadLimit(Shows(m, c), Shown(m, rest) + tail, ps, was);
        assert Among(m, order) == Among(m, rest);
        if m.limit > 0 { ReadShown(m, rest, tail, ps[1..], was.(limit := Atoi(ps[0]))); } else { ReadShown(m, rest, tail, ps, was); }
      } else {
        var now := if Shows(m, c) then was.(flags := was.flags + {c}) else was;
        ReadOpt(Shows(m, c), c, Shown(m, rest) + tail, ps, was);
        assert now.flags + Among(m, rest) == was.flags + Among(m, order);
        ReadShown(m, rest, tail, ps, now);
      }
    }
  }

  /** Reading what was printed: the flags come back, and so do the key and the
      limit, but each as the other when there are both. */
  lemma ReadPrinted(m: Mode)
    requires Sound(m)
    ensures Read(Letters(m), Params(m), NOTHING) ==
            if m.key != [] && m.limit > 0 then Mode(m.flags, Decimal(m.limit), Atoi(m.key)) else m
  {
    hide Read, Atoi, Decimal, Shown;
    var ps := Params(m);
    ReadShown(m, ORDER, KeyLetters(m), ps, NOTHING);
    assert TakesLimit(m, ORDER) == (m.limit > 0) && NOTHING.flags + Among(m, ORDER) == m.flags by {
      assert ORDER[0] == A && ORDER[1] == I && ORDER[2] == LIMIT && ORDER[3] == M && ORDER[4] == N;
      assert ORDER[5] == S && ORDER[6] == T && ORDER[7] == P && ORDER[8] == Q;
    }
    var rest := if m.limit > 0 then ps[1..] else ps;
    var read := Mode(m.flags, [], if m.limit > 0 then Atoi(ps[0]) else 0);
    if m.key == [] { ReadNone(rest, read); } else { ReadKey(m.flags != {}, rest, read); }
    if m.limit > 0 { AtoiPrinted(m.limit); }
  }

  lemma ReadNone(params: seq<Text>, was: Mode)
    ensures Read([], params, was) == was
  {}

  /** Reading undoes printing just when there are not both a key and a limit, or
      the key is the limit written out. */
  lemma RoundTrip(m: Mode)
    requires Sound(m)
    ensures Read(Letters(m), Params(m), NOTHING) == m <==> m.key == [] || m.limit == 0 || m.key == Decimal(m.limit)
  {
    hide Read, Atoi, Decimal;
    ReadPrinted(m);
    if m.limit > 0 { AtoiPrinted(m.limit); }
  }

  // ------------------------------------------------------------ the program

  /** The buffer holds text, as a C string. */
  ghost predicate Holds(m: array<Byte>, text: Text)
    reads m
  {
    match m
    case _ =>
      && |text| < m.Length && m[|text|] == 0
      && forall k :: 0 <= k < |text| ==> m[k] == text[k] != 0
  }

  /** `strchr` from a place on: the first c, or the end. */
  method StrChr(m: array<Byte>, from: nat, c: Byte, ghost text: Text) returns (p: nat)
    requires Holds(m, text) && from <= |text| && c != 0
    ensures from <= p <= |text| && (p < |text| ==> text[p] == c) && forall k :: from <= k < p ==> text[k] != c
    ensures p == |text| <==> m[p] == 0
  {
    p := from;
    while m[p] != 0 && m[p] != c
      invariant from <= p <= |text| && forall k :: from <= k < p ==> text[k] != c
      decreases |text| - p
    {
      p := p + 1;
    }
  }

  /** `strcpy` to a place further down in the same buffer. */
  method StrCpyDown(m: array<Byte>, to: nat, from: nat, ghost n: nat)
    requires to < from <= n < m.Length && m[n] == 0 && forall k :: from <= k < n ==> m[k] != 0
    modifies m
    ensures forall k :: 0 <= k < to ==> m[k] == old(m[k])
    ensures forall k :: to <= k <= to + (n - from) ==> m[k] == old(m[from + (k - to)])
  {
    var p, q := to, from;
    while m[q] != 0
      invariant from <= q <= n && p == to + (q - from)
      invariant forall k :: 0 <= k < to ==> m[k] == old(m[k])
      invariant forall k :: to <= k < p ==> m[k] == old(m[from + (k - to)])
      invariant forall k :: p <= k < m.Length ==> m[k] == old(m[k])
      decreases n - q
    {
      m[p] := m[q];
      p, q := p + 1, q + 1;
    }
    m[p] := 0;
  }

  /** The string between two places. */
  method Slice(m: array<Byte>, s: nat, t: nat) returns (p: Text)
    requires s <= t <= m.Length
    ensures p == m[s..t]
  {
    p := m[s..t];
  }

  /** What is done at a k or an l: the first parameter leaves the string.  The
      space behind it, if there is one, is overwritten with `mark` meanwhile. */
  method TakeParam(m: array<Byte>, mark: Byte, ghost front: Text, ghost params: seq<Text>) returns (p: Text)
    requires Plain(front) && params != [] && AllPlain(params) && Holds(m, front + [SPACE] + Join(params))
    modifies m
    ensures p == params[0] && Holds(m, front + [SPACE] + Join(params[1..]))
  {
    hide Join, Plain;
    ghost var text := front + [SPACE] + Join(params);
    JoinSplit(front, params);
    var s := StrChr(m, 0, SPACE, text);
    s := s + 1;
    var t := StrChr(m, s, SPACE, text);
    var more := m[t] != 0;
    p := Slice(m, s, t);
    assert p == text[s..t];
    CloseUp(m, mark, s, t, more, text, front + [SPACE] + Join(params[1..]));
  }

  /** What is behind place t moves up to place s. */
  method CloseUp(m: array<Byte>, mark: Byte, s: nat, t: nat, more: bool, ghost text: Text, ghost left: Text)
    requires Holds(m, text) && s <= t <= |text|
    requires if more then t < |text| && |left| == |text| - (t + 1 - s) else t == |text| && |left| == s
    requires forall k :: 0 <= k < s ==> left[k] == text[k]
    requires forall k :: s <= k < |left| ==> left[k] == text[k + (t + 1 - s)]
    modifies m
    ensures Holds(m, left)
  {
    if more {
      m[t] := mark;
      StrCpyDown(m, s, t + 1, |text|);
    } else {
      m[s] := 0;
    }
  }

  /** Where the first parameter lies in the string, and what is left without it. */
  lemma JoinSplit(front: Text, params: seq<Text>)
    requires Plain(front) && params != [] && AllPlain(params)
    ensures var text, left, s := front + [SPACE] + Join(params), front + [SPACE] + Join(params[1..]), |front| + 1;
      var t := s + |params[0]|;
      && t <= |text| && text[s..t] == params[0] && text[s - 1] == SPACE
      && (forall k :: 0 <= k < s - 1 ==> text[k] != SPACE) && (forall k :: s <= k < t ==> text[k] != SPACE)
      && (if |params| > 1 then t < |text| && text[t] == SPACE && |left| == |text| - (t + 1 - s) else t == |text| && |left| == s)
      && (forall k :: 0 <= k < s ==> left[k] == text[k])
      && (forall k :: s <= k < |left| ==> left[k] == text[k + (t + 1 - s)])
  {
    hide Join;
    assert Plain(params[0]);
    JoinIs(params);
    Places(front, params[0], |params| > 1, Join(params[1..]));
  }

  lemma JoinIs(params: seq<Text>)
    requires params != []
    ensures Join(params) == params[0] + if |params| > 1 then [SPACE] + Join(params[1..]) else []
    ensures |params| == 1 ==> Join(params[1..]) == []
  {
    if |params| == 1 { assert params[0] + [] == params[0]; }
    else { assert params[0] + [SPACE] + Join(params[1..]) == params[0] + ([SPACE] + Join(params[1..])); }
  }

  lemma Places(front: Text, p: Text, more: bool, rest: Text)
    requires Plain(front) && Plain(p) && (more || rest == [])
    ensures var text, left, s := front + [SPACE] + (p + if more then [SPACE] + rest else []), front + [SPACE] + rest, |front| + 1;
      var t := s + |p|;
      && t <= |text| && text[s..t] == p && text[s - 1] == SPACE
      && (forall k :: 0 <= k < s - 1 ==> text[k] != SPACE) && (forall k :: s <= k < t ==> text[k] != SPACE)
      && (if more then t < |text| && text[t] == SPACE && |left| == |text| - (t + 1 - s) else t == |text| && |left| == s)
      && (forall k :: 0 <= k < s ==> left[k] == text[k])
      && (forall k :: s <= k < |left| ==> left[k] == text[k + (t + 1 - s)])
  {
    var tail := if more then [SPACE] + rest else [];
    var text, s := front + [SPACE] + (p + tail), |front| + 1;
    assert text == (front + [SPACE]) + p + tail;
    forall k | s <= k < s + |p| ensures text[k] == p[k - s] {}
  }

  /** The string while it is being read: no space yet, or one with what is left of
      the parameters behind it. */
  function Body(front: Text, spaced: bool, params: seq<Text>): Text {
    if spaced then front + [SPACE] + Join(params) else front
  }

  /** One letter of the scan: the reading that is still to do stays the same. */
  lemma ReadStep(letters: Text, i: nat, params: seq<Text>, was: Mode)
    requires i < |letters| && Takes(letters[i..]) == |params|
    ensures letters[i] == KEY || letters[i] == LIMIT ==> params != [] && Takes(letters[i + 1..]) == |params[1..]|
    ensures letters[i] != KEY && letters[i] != LIMIT ==> Takes(letters[i + 1..]) == |params|
    ensures Read(letters[i..], params, was) ==
      if letters[i] == KEY then Read(letters[i + 1..], params[1..], was.(key := params[0]))
      else if letters[i] == LIMIT then Read(letters[i + 1..], params[1..], was.(limit := Atoi(params[0])))
      else Read(letters[i + 1..], params, if IsFlag(letters[i]) then was.(flags := was.flags + {letters[i]}) else was)
  {
    hide Atoi;
    assert letters[i..][1..] == letters[i + 1..];
  }

  lemma BodyIs(first: Byte, letters: Text, spaced: bool, params: seq<Text>)
    requires spaced || params == []
    ensures var front := [first] + letters;
      var b := Body(front, spaced, params);
      && |b| >= |front| && (forall k :: 0 <= k < |front| ==> b[k] == front[k])
      && (params == [] ==> |b| == |front| + if spaced then 1 else 0)
      && (spaced ==> b[|front|] == SPACE)
  {}

  lemma NothingLeft(params: seq<Text>, was: Mode)
    ensures Read([], params, was) == was && Takes([]) == 0
  {}

  class Channel {
    var chanmode: set<Byte>
    var key: Text
    var limit: int

    function Now(): Mode
      reads this
    {
      Mode(chanmode, key, limit)
    }

    /** `RecordChanMode`: the letters are scanned where they stand, while the
        parameters behind them are taken out one after the other. */
    method RecordChanMode(m: array<Byte>, ghost first: Byte, ghost letters: Text, ghost params: seq<Text>)
      requires Holds(m, Spelled(first, letters, params)) && first != SPACE && first != 0
      requires Plain(letters) && AllPlain(params) && Takes(letters) == |params|
      modifies this, m
      ensures Now() == Read(letters, params, NOTHING) && Meant(letters, params, Now())
    {
      hide Join, Takes, Read, Plain, Holds, Spelled, Meant;
      ReadMeans(letters, params);
      chanmode, key, limit := {}, [], 0;
      var i := 1;
      ghost var ps, spaced, front := params, params != [], [first] + letters;
      assert letters[0..] == letters;
      StartsAs(first, letters, params);
      PlainFront(first, letters);
      CharIs(m, i, Body(front, spaced, ps));
      while m[i] != 0
        invariant 1 <= i <= |Body(front, spaced, ps)| && Char(m, i, Body(front, spaced, ps)) && Holds(m, Body(front, spaced, ps))
        invariant (spaced || ps == []) && AllPlain(ps)
        invariant i <= |letters| + 1 ==> Read(letters[i - 1..], ps, Now()) == Read(letters, params, NOTHING) && Takes(letters[i - 1..]) == |ps|
        invariant i > |letters| + 1 ==> Now() == Read(letters, params, NOTHING) && ps == [] && spaced
        decreases |letters| + 3 - i
      {
        BodyIs(first, letters, spaced, ps);
        var c := m[i];
        if i <= |letters| {
          ReadStep(letters, i - 1, ps, Now());
        } else {
          assert letters[i - 1..] == [];
          NothingLeft(ps, Now());
        }
        if IsFlag(c) { chanmode := chanmode + {c}; }
        if c == KEY {
          key := TakeParam(m, 0, front, ps);
          ps := ps[1..];
        }
        if c == LIMIT {
          var p := TakeParam(m, 1, front, ps);
          limit := Atoi(p);
          ps := ps[1..];
        }
        i := i + 1;
        BodyIs(first, letters, spaced, ps);
        CharIs(m, i, Body(front, spaced, ps));
      }
      BodyIs(first, letters, spaced, ps);
      if i == |letters| + 1 {
        assert letters[i - 1..] == [];
        NothingLeft(ps, Now());
      }
    }

    /** `ParseChanmode`: the mode as a string. */
    method ParseChanmode() returns (heree: Text)
      ensures heree == Printed(Now())
    {
      hide Decimal, Letters, Printed;
      PrintedIs(Now());
      var s := ParseLetters();
      if key != [] { s := s + ([SPACE] + key); }
      Nothing(s);
      if limit > 0 { s := s + ([SPACE] + Decimal(limit)); }
      Nothing(s);
      heree := s;
    }

    /** The letters one after the other, and the key's. */
    method ParseLetters() returns (s: Text)
      ensures s == [SIGN] + Letters(Now())
    {
      hide Shown;
      s := [SIGN];
      ghost var was := s;
      for n := 0 to |ORDER|
        invariant s + Shown(Now(), ORDER[n..]) == [SIGN] + Shown(Now(), ORDER)
      {
        was := s;
        ShownStep(was, Now(), n);
        if (if ORDER[n] == LIMIT then limit > 0 else ORDER[n] in chanmode) { s := s + [ORDER[n]]; }
        assert s == was + Opt(Shows(Now(), ORDER[n]), ORDER[n]);
      }
      ShownEnd(s, Now());
      was := s;
      if key != [] {
        if chanmode != {} { s := s + [SIGN]; }
        s := s + [KEY];
      }
      assert s == was + KeyLetters(Now());
    }
  }

  /** What the buffer has at place i of the text, or at its end. */
  ghost predicate Char(m: array<Byte>, i: nat, text: Text)
    reads m
  {
    i < m.Length && (m[i] == 0 <==> i == |text|) && (i < |text| ==> m[i] == text[i])
  }

  lemma CharIs(m: array<Byte>, i: nat, text: Text)
    requires Holds(m, text) && i <= |text|
    ensures Char(m, i, text)
  {}

  lemma PlainFront(first: Byte, letters: Text)
    requires first != SPACE && first != 0 && Plain(letters)
    ensures Plain([first] + letters)
  {}

  lemma StartsAs(first: Byte, letters: Text, params: seq<Text>)
    ensures Spelled(first, letters, params) == Body([first] + letters, params != [], params)
    ensures |Body([first] + letters, params != [], params)| >= 1
  {
    hide Join;
    if params == [] { assert [first] + letters + [] == [first] + letters; }
    else { assert [first] + letters + ([SPACE] + Join(params)) == [first] + letters + [SPACE] + Join(params); }
  }

  lemma ShownStep(s: Text, m: Mode, n: nat)
    requires n < |ORDER|
    ensures s + Shown(m, ORDER[n..]) == (s + Opt(Shows(m, ORDER[n]), ORDER[n])) + Shown(m, ORDER[n + 1..])
  {
    assert ORDER[n..][1..] == ORDER[n + 1..] && ORDER[n..][0] == ORDER[n];
  }

  lemma ShownEnd(s: Text, m: Mode)
    ensures s + Shown(m, ORDER[|ORDER|..]) == s
  {}

  lemma Nothing(s: Text)
    ensures s + [] == s
  {}

  lemma PrintedIs(m: Mode)
    ensures Printed(m) == [SIGN] + Letters(m) + (if m.key == [] then [] else [SPACE] + m.key)
                          + (if m.limit > 0 then [SPACE] + Decimal(m.limit) else [])
  {
    hide Letters, Decimal;
    var front := [SIGN] + Letters(m);
    var d := if m.limit > 0 then Decimal(m.limit) else [];
    if m.key == [] {
      assert front + [] == front;
      if m.limit > 0 { assert [] + [d] == [d]; }
    } else if m.limit > 0 {
      assert Params(m) == [m.key, d];
      assert [m.key, d][1..] == [d];
      assert Join([m.key, d]) == m.key + [SPACE] + d;
      assert front + ([SPACE] + (m.key + [SPACE] + d)) == front + ([SPACE] + m.key) + ([SPACE] + d);
    } else {
      assert Params(m) == [m.key];
    }
  }

  /** What is printed has the form that is read: plain letters, as many of them
      taking a parameter as there are. */
  lemma PrintedIsReadable(m: Mode)
    requires Sound(m)
    ensures Plain(Letters(m)) && AllPlain(Params(m)) && Takes(Letters(m)) == |Params(m)|
  {
    hide Decimal, Takes, Shown;
    if m.limit > 0 { DecimalPlain(m.limit); }
    KeyAlone();
    TakesOpt(m.flags != {}, SIGN, [KEY]);
    TakesShown(m, ORDER, KeyLetters(m));
    assert ORDER[2] == LIMIT;
  }

  lemma {:induction false} TakesShown(m: Mode, order: Text, tail: Text)
    requires Distinct(order) && Plain(tail)
    ensures Takes(Shown(m, order) + tail) == (if TakesLimit(m, order) then 1 else 0) + Takes(tail)
    ensures Plain(Shown(m, order) + tail)
    decreases |order|
  {
    hide Takes, Plain;
    if order == [] {
      assert [] + tail == tail;
    } else {
      var c, rest := order[0], order[1..];
      assert forall x :: x in order <==> x == c || x in rest;
      assert c !in rest;
      assert Shown(m, order) + tail == Opt(Shows(m, c), c) + (Shown(m, rest) + tail);
      TakesShown(m, rest, tail);
      TakesOpt(Shows(m, c), c, Shown(m, rest) + tail);
    }
  }

  lemma KeyAlone()
    ensures Takes([KEY]) == 1 && Takes([]) == 0 && Plain([KEY]) && Plain([])
  {
    assert [KEY][1..] == [];
  }

  lemma TakesOpt(b: bool, c: Byte, rest: Text)
    ensures Takes(Opt(b, c) + rest) == (if b && (c == KEY || c == LIMIT) then 1 else 0) + Takes(rest)
    ensures c != 0 && c != SPACE && Plain(rest) ==> Plain(Opt(b, c) + rest)
  {
    if b { assert ([c] + rest)[1..] == rest; } else { assert [] + rest == rest; }
  }

  /** Printing a channel's mode and reading it into the channel again. */
  method PrintAndRead(c: Channel, m: array<Byte>)
    requires Sound(c.Now()) && m.Length > |Printed(c.Now())|
    modifies c, m
    ensures var was := old(c.Now());
      c.Now() == was <==> was.key == [] || was.limit == 0 || was.key == Decimal(was.limit)
  {
    hide Printed, Read, Letters, Params, Decimal, Sound;
    var was := c.Now();
    var text := c.ParseChanmode();
    PrintedIsReadable(was);
    PrintedNoZero(was);
    for i := 0 to |text|
      invariant forall k :: 0 <= k < i ==> m[k] == text[k]
      invariant unchanged(c)
    {
      m[i] := text[i];
    }
    m[|text|] := 0;
    PrintedSpelled(was);
    c.RecordChanMode(m, SIGN, Letters(was), Params(was));
    RoundTrip(was);
  }

  lemma PrintedSpelled(m: Mode)
    ensures Printed(m) == Spelled(SIGN, Letters(m), Params(m))
  {}

  lemma PrintedNoZero(m: Mode)
    requires Sound(m)
    ensures 0 !in Printed(m)
  {
    hide Letters, Decimal;
    PrintedIs(m);
    PrintedIsReadable(m);
    if m.limit > 0 { DecimalPlain(m.limit); }
  }
}
