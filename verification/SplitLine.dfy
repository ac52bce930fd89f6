/** The line wrapper of src/output.c.

    Cells carry a character and display attributes.  `SplitLine` collects them
    in one fixed buffer and cuts that into lines of at most 77 cells, stepping
    its input pointer back by one after a break at a blank.  It is proved
    against `Wrapped`, which says line by line where the breaks belong. */
module SplitLine {

  type Cell = nat                      // 0 ends a string of cells

  function CharText(c: Cell): nat { c % 0x100 }     // A_CHARTEXT
  predicate IsBlank(c: Cell) { CharText(c) == 0x20 }
  predicate IsNewline(c: Cell) { CharText(c) == 0x0A }

  lemma BlankOrNewline(ch: Cell)
    ensures IsNewline(ch) ==> ch != 0
    ensures IsBlank(ch) ==> ch != 0 && !IsNewline(ch)
    ensures IsNewline(NEWLINE) && !IsBlank(NEWLINE)
  {}

  const NEWLINE: Cell := 0x0A
  const COL := 77
  const LARGBUF := 600
  const MAXLINES := 20

  // ------------------------------------------------------- the reference

  /** Why a line ends where it does. */
  datatype Break =
    | Given          // the input has a newline there, or ends
    | Soft           // at a blank, which starts the next line
    | SoftAtEdge     // at a blank in the last column, which is then read again
    | Hard           // no blank to break at

  datatype Piece = Piece(line: seq<Cell>, after: Break)

  /** The first newline of w at or after i, or |w|. */
  function FirstNewline(w: seq<Cell>, i: nat): (e: nat)
    requires i <= |w|
    ensures i <= e <= |w| && (e < |w| ==> IsNewline(w[e]))
    ensures forall k :: i <= k < e ==> !IsNewline(w[k])
    decreases |w| - i
  {
    if i == |w| || IsNewline(w[i]) then i else FirstNewline(w, i + 1)
  }

  /** The last blank of w in [from, to); 0, which is no place to break at, for none. */
  function LastBlank(w: seq<Cell>, from: nat, to: nat): (n: nat)
    requires to <= |w|
    ensures n == 0 || (from <= n < to && IsBlank(w[n]))
    ensures forall k :: from <= k < to && n < k ==> !IsBlank(w[k])
  {
    if to <= from then 0 else if IsBlank(w[to - 1]) then to - 1 else LastBlank(w, from, to - 1)
  }

  /** The lines of the text `rest`, when the first line already holds `start`.
      A line ends at its newline if that is among the first 77 cells, else at
      the last blank of these, else before the last of them. */
  function Wrapped(start: seq<Cell>, rest: seq<Cell>, spc: Cell): seq<Piece>
    requires |start| == 0 || |start| == 2
    decreases |rest|
  {
    var w := start + rest;
    var e := FirstNewline(w, |start|);
    if e < COL && e < |w| then [Piece(w[..e + 1], Given)] + Wrapped([], w[e + 1..], spc)
    else if w == [] then []
    else if |w| < COL then [Piece(w, Given)]
    else
      var n := LastBlank(w, |start|, COL);
      [Piece(w[..CutAt(n)] + [NEWLINE], CutBreak(n))] + Wrapped(NextStart(w, n, spc), w[NextFrom(n)..], spc)
  }

  /** How a line whose last blank is at n is cut. */
  function CutBreak(n: nat): Break {
    if n == 0 then Hard else if n == COL - 1 then SoftAtEdge else Soft
  }

  function CutAt(n: nat): nat {
    if n == 0 then COL - 1 else n
  }

  /** Two cells that start the line after a cut. */
  function NextStart(w: seq<Cell>, n: nat, spc: Cell): seq<Cell>
    requires n < |w|
  {
    [spc, if n == 0 then spc else w[n]]
  }

  /** Where the text goes on after a cut. */
  function NextFrom(n: nat): nat {
    if n == 0 || n == COL - 1 then COL - 1 else n + 1
  }

  function Lines(ps: seq<Piece>): (ls: seq<seq<Cell>>) {
    if ps == [] then [] else [ps[0].line] + Lines(ps[1..])
  }

  // ----------------------------------------- what the reference promises

  /** The blanks at the start of a line that are not from the text. */
  function Indent(b: Break): nat {
    match b case Given => 0 case Soft => 1 case SoftAtEdge => 2 case Hard => 2
  }

  /** Undo the wrapping: drop the added blanks and newlines. */
  function Rejoined(before: Break, ps: seq<Piece>): seq<Cell>
    decreases |ps|
  {
    if ps == [] then [] else Own(ps[0], before) + Rejoined(ps[0].after, ps[1..])
  }

  function Own(p: Piece, before: Break): seq<Cell> {
    if |p.line| <= Indent(before) then []
    else if p.after.Given? then p.line[Indent(before)..]
    else p.line[Indent(before)..|p.line| - 1]
  }

  /** At most 77 cells, newlines only at the end and always after a cut, and
      two blanks at the start of every continuation. */
  predicate WellCut(before: Break, ps: seq<Piece>)
    decreases |ps|
  {
    ps != [] ==>
      && 0 < |ps[0].line| <= COL && 0 !in ps[0].line
      && (forall i :: 0 <= i < |ps[0].line| - 1 ==> !IsNewline(ps[0].line[i]))
      && (!ps[0].after.Given? ==> ps[0].line[|ps[0].line| - 1] == NEWLINE && |ps| > 1)
      && (ps[0].after.Given? && |ps| > 1 ==> IsNewline(ps[0].line[|ps[0].line| - 1]))
      && (!before.Given? ==> |ps[0].line| >= 2 && IsBlank(ps[0].line[0]) && IsBlank(ps[0].line[1]))
      && WellCut(ps[0].after, ps[1..])
  }

  /** The three ways a line can end. */
  lemma AtNewline(start: seq<Cell>, rest: seq<Cell>, spc: Cell, e: nat)
    requires |start| == 0 || |start| == 2
    requires e == FirstNewline(start + rest, |start|) && e < COL && e < |start + rest|
    ensures Wrapped(start, rest, spc) == [Piece((start + rest)[..e + 1], Given)] + Wrapped([], (start + rest)[e + 1..], spc)
  {}

  lemma AtEnd(start: seq<Cell>, rest: seq<Cell>, spc: Cell)
    requires |start| == 0 || |start| == 2
    requires |start + rest| < COL && FirstNewline(start + rest, |start|) == |start + rest|
    ensures Wrapped(start, rest, spc) == if start + rest == [] then [] else [Piece(start + rest, Given)]
  {}

  lemma AtCut(start: seq<Cell>, rest: seq<Cell>, spc: Cell, n: nat)
    requires |start| == 0 || |start| == 2
    requires |start + rest| >= COL && FirstNewline(start + rest, |start|) >= COL && n == LastBlank(start + rest, |start|, COL)
    ensures n < COL && NextFrom(n) < |start + rest| < NextFrom(n) + |rest|
    ensures n == 0 || (|start| <= n && IsBlank((start + rest)[n]))
    ensures |NextStart(start + rest, n, spc)| == 2 && !CutBreak(n).Given?
    ensures Wrapped(start, rest, spc)
         == [Piece((start + rest)[..CutAt(n)] + [NEWLINE], CutBreak(n))]
            + Wrapped(NextStart(start + rest, n, spc), (start + rest)[NextFrom(n)..], spc)
  {}

  /** The cells that leave a mark. */
  function Ink(s: seq<Cell>): seq<Cell> {
    if s == [] then []
    else (if IsBlank(s[0]) || IsNewline(s[0]) then [] else [s[0]]) + Ink(s[1..])
  }

  function Flat(lines: seq<seq<Cell>>): seq<Cell> {
    if lines == [] then [] else lines[0] + Flat(lines[1..])
  }

  lemma InkCons(c: Cell, s: seq<Cell>)
    ensures Ink([c] + s) == (if IsBlank(c) || IsNewline(c) then [] else [c]) + Ink(s)
  {
    assert ([c] + s)[1..] == s;
  }

  lemma {:induction false} InkSplit(a: seq<Cell>, b: seq<Cell>)
    ensures Ink(a + b) == Ink(a) + Ink(b)
  {
    hide IsBlank, IsNewline, Ink;
    if a == [] {
      assert a + b == b;
      InkOfNone();
    } else {
      InkSplit(a[1..], b);
      assert a + b == [a[0]] + (a[1..] + b);
      assert a == [a[0]] + a[1..];
      InkCons(a[0], a[1..] + b);
      InkCons(a[0], a[1..]);
    }
  }

  lemma InkOne(a: Cell)
    ensures Ink([a]) == if IsBlank(a) || IsNewline(a) then [] else [a]
  {
    assert [a][1..] == [];
  }

  lemma InkTwo(a: Cell, b: Cell)
    requires IsBlank(a) && IsBlank(b)
    ensures Ink([a, b]) == []
  {
    hide IsBlank;
    InkSplit([a], [b]);
    InkOne(a);
    InkOne(b);
    assert [a, b] == [a] + [b];
  }

  /** Wrapping neither loses nor adds nor moves a mark. */
  lemma {:induction false} InkKept(start: seq<Cell>, rest: seq<Cell>, spc: Cell)
    requires (|start| == 0 || |start| == 2) && IsBlank(spc)
    ensures Ink(Flat(Lines(Wrapped(start, rest, spc)))) == Ink(start + rest)
    decreases |rest|
  {
    hide IsBlank, IsNewline, LastBlank, FirstNewline, Wrapped, Ink, Flat, Lines, NextStart, NextFrom, CutBreak;
    var w := start + rest;
    var e := FirstNewline(w, |start|);
    if e < COL && e < |w| {
      var tail := Wrapped([], w[e + 1..], spc);
      AtNewline(start, rest, spc, e);
      InkKept([], w[e + 1..], spc);
      assert [] + w[e + 1..] == w[e + 1..];
      InkOfFirst(Piece(w[..e + 1], Given), tail);
      InkSplit(w[..e + 1], w[e + 1..]);
      assert w[..e + 1] + w[e + 1..] == w;
    } else if |w| < COL {
      AtEnd(start, rest, spc);
      InkOfNone();
      if w != [] {
        InkOfFirst(Piece(w, Given), []);
        assert [Piece(w, Given)] + [] == [Piece(w, Given)];
      }
    } else {
      var n := LastBlank(w, |start|, COL);
      AtCut(start, rest, spc, n);
      InkKept(NextStart(w, n, spc), w[NextFrom(n)..], spc);
      InkOfFirst(Piece(w[..CutAt(n)] + [NEWLINE], CutBreak(n)), Wrapped(NextStart(w, n, spc), w[NextFrom(n)..], spc));
      InkOfCut(w, n, spc);
    }
  }

  lemma InkOfNone()
    ensures Ink([]) == [] && Flat([]) == [] && Lines([]) == []
  {}

  lemma InkOfFirst(p: Piece, tail: seq<Piece>)
    ensures Ink(Flat(Lines([p] + tail))) == Ink(p.line) + Ink(Flat(Lines(tail)))
  {
    hide Ink;
    InkSplit(p.line, Flat(Lines(tail)));
    assert ([p] + tail)[1..] == tail;
    assert Lines([p] + tail)[1..] == Lines(tail);
  }

  lemma NextStartHas(w: seq<Cell>, n: nat, spc: Cell)
    requires n < |w|
    ensures NextStart(w, n, spc) == [spc, if n == 0 then spc else w[n]]
  {}

  lemma Pieces(w: seq<Cell>, at: nat)
    requires at < |w|
    ensures w[..at] + w[at..] == w && w[at..] == [w[at]] + w[at + 1..]
  {}

  lemma InkOfCut(w: seq<Cell>, n: nat, spc: Cell)
    requires |w| >= COL > n && IsBlank(spc) && (n != 0 ==> IsBlank(w[n]))
    ensures Ink(w[..CutAt(n)] + [NEWLINE]) + Ink(NextStart(w, n, spc) + w[NextFrom(n)..]) == Ink(w)
  {
    hide IsBlank, IsNewline, Ink, NextStart, NextFrom;
    BlankOrNewline(spc);
    InkSplit(w[..CutAt(n)], [NEWLINE]);
    InkOne(NEWLINE);
    Nothing(Ink(w[..CutAt(n)]));
    InkOfNext(w, n, spc);
    InkSplit(w[..CutAt(n)], w[CutAt(n)..]);
    Pieces(w, CutAt(n));
  }

  lemma InkOfNext(w: seq<Cell>, n: nat, spc: Cell)
    requires |w| >= COL > n && IsBlank(spc) && (n != 0 ==> IsBlank(w[n]))
    ensures Ink(NextStart(w, n, spc) + w[NextFrom(n)..]) == Ink(w[CutAt(n)..])
  {
    hide IsBlank, IsNewline, Ink, NextStart;
    var at, f := CutAt(n), NextFrom(n);
    NextStartHas(w, n, spc);
    InkTwo(spc, if n == 0 then spc else w[n]);
    InkSplit(NextStart(w, n, spc), w[f..]);
    Nothing(Ink(w[f..]));
    if f != at {
      Pieces(w, at);
      InkCons(w[at], w[f..]);
    }
  }

  lemma Nothing(s: seq<Cell>)
    ensures s + [] == s && [] + s == s
  {}

  /** Nothing is lost or changed: the text can be read back from the lines. */
  lemma {:induction false} Rejoins(start: seq<Cell>, rest: seq<Cell>, spc: Cell, before: Break)
    requires |start| == if before.Given? then 0 else 2
    ensures Rejoined(before, Wrapped(start, rest, spc)) == start[Indent(before)..] + rest
    decreases |rest|
  {
    hide IsBlank, IsNewline, LastBlank, FirstNewline, Wrapped, Rejoined, Own, NextStart, NextFrom, CutAt, CutBreak;
    var w := start + rest;
    var e := FirstNewline(w, |start|);
    DropStart(start, rest, Indent(before));
    if e < COL && e < |w| {
      AtNewline(start, rest, spc, e);
      Rejoins([], w[e + 1..], spc, Given);
      RejoinGiven(w, e + 1, before, Wrapped([], w[e + 1..], spc));
    } else if |w| < COL {
      AtEnd(start, rest, spc);
      if w == [] { RejoinNone(); } else { RejoinLast(w, before); }
    } else {
      var n := LastBlank(w, |start|, COL);
      AtCut(start, rest, spc, n);
      Rejoins(NextStart(w, n, spc), w[NextFrom(n)..], spc, CutBreak(n));
      RejoinCut(w, n, before, spc, Wrapped(NextStart(w, n, spc), w[NextFrom(n)..], spc));
    }
  }

  lemma RejoinCut(w: seq<Cell>, n: nat, before: Break, spc: Cell, tail: seq<Piece>)
    requires |w| >= COL > n && (n == 0 || Indent(before) <= n)
    requires Rejoined(CutBreak(n), tail) == NextStart(w, n, spc)[Indent(CutBreak(n))..] + w[NextFrom(n)..]
    ensures Rejoined(before, [Piece(w[..CutAt(n)] + [NEWLINE], CutBreak(n))] + tail) == w[Indent(before)..]
  {
    hide Rejoined, Own;
    RejoinFirst(before, Piece(w[..CutAt(n)] + [NEWLINE], CutBreak(n)), tail);
    OwnOfCut(w, n, Indent(before), before, spc);
  }

  lemma RejoinGiven(w: seq<Cell>, m: nat, before: Break, tail: seq<Piece>)
    requires Indent(before) <= m <= |w| && Rejoined(Given, tail) == [][Indent(Given)..] + w[m..]
    ensures Rejoined(before, [Piece(w[..m], Given)] + tail) == w[Indent(before)..]
  {
    hide Rejoined, Own;
    RejoinFirst(before, Piece(w[..m], Given), tail);
    OwnGiven(w[..m], before);
    Halves(w, Indent(before), m);
    assert [][Indent(Given)..] + w[m..] == w[m..];
  }

  lemma RejoinLast(w: seq<Cell>, before: Break)
    requires Indent(before) <= |w|
    ensures Rejoined(before, [Piece(w, Given)]) == w[Indent(before)..]
  {
    hide Rejoined, Own;
    RejoinFirst(before, Piece(w, Given), []);
    RejoinNone();
    OwnGiven(w, before);
    assert [Piece(w, Given)] + [] == [Piece(w, Given)];
  }

  lemma DropStart(start: seq<Cell>, rest: seq<Cell>, i: nat)
    requires i <= |start|
    ensures (start + rest)[i..] == start[i..] + rest
  {}

  lemma Halves(w: seq<Cell>, i: nat, m: nat)
    requires i <= m <= |w|
    ensures w[..m][i..] + w[m..] == w[i..] && w[i..m] + w[m..] == w[i..]
  {}

  lemma OwnGiven(line: seq<Cell>, before: Break)
    requires Indent(before) <= |line|
    ensures Own(Piece(line, Given), before) == line[Indent(before)..]
  {}

  lemma RejoinNone()
    ensures forall b :: Rejoined(b, []) == []
  {}

  lemma RejoinFirst(before: Break, p: Piece, tail: seq<Piece>)
    ensures Rejoined(before, [p] + tail) == Own(p, before) + Rejoined(p.after, tail)
  {
    assert ([p] + tail)[1..] == tail;
  }

  lemma OwnOfCut(w: seq<Cell>, n: nat, i: nat, before: Break, spc: Cell)
    requires |w| >= COL > n && i == Indent(before) && (n == 0 || i <= n)
    ensures Own(Piece(w[..CutAt(n)] + [NEWLINE], CutBreak(n)), before)
            + (NextStart(w, n, spc)[Indent(CutBreak(n))..] + w[NextFrom(n)..]) == w[i..]
  {
    var at := CutAt(n);
    assert Own(Piece(w[..at] + [NEWLINE], CutBreak(n)), before) == w[i..at];
    assert NextStart(w, n, spc)[Indent(CutBreak(n))..] + w[NextFrom(n)..] == w[at..];
    Halves(w, i, at);
  }

  lemma {:induction false} CutsWell(start: seq<Cell>, rest: seq<Cell>, spc: Cell, before: Break)
    requires |start| == (if before.Given? then 0 else 2) && IsBlank(spc)
    requires 0 !in start && 0 !in rest && forall k :: 0 <= k < |start| ==> IsBlank(start[k])
    ensures WellCut(before, Wrapped(start, rest, spc))
    decreases |rest|
  {
    hide LastBlank, FirstNewline, IsBlank, IsNewline, Wrapped, WellCut, NextStart, NextFrom, CutAt, CutBreak;
    var w := start + rest;
    var e := FirstNewline(w, |start|);
    StartBlank(start, rest);
    if e < COL && e < |w| {
      AtNewline(start, rest, spc, e);
      CutsWell([], w[e + 1..], spc, Given);
      WellCutFirst(before, Piece(w[..e + 1], Given), Wrapped([], w[e + 1..], spc));
    } else if |w| < COL {
      AtEnd(start, rest, spc);
      WellCutNone();
      if w != [] {
        WellCutFirst(before, Piece(w, Given), []);
        assert [Piece(w, Given)] + [] == [Piece(w, Given)];
      }
    } else {
      var n := LastBlank(w, |start|, COL);
      AtCut(start, rest, spc, n);
      NextStartIs(w, n, spc);
      CutsWell(NextStart(w, n, spc), w[NextFrom(n)..], spc, CutBreak(n));
      NotEmpty(NextStart(w, n, spc), w[NextFrom(n)..], spc);
      WellCutCut(w, n, before, Wrapped(NextStart(w, n, spc), w[NextFrom(n)..], spc));
    }
  }

  lemma WellCutCut(w: seq<Cell>, n: nat, before: Break, tail: seq<Piece>)
    requires |w| >= COL > n && 0 !in w && forall k :: 0 <= k < COL ==> !IsNewline(w[k])
    requires !before.Given? ==> (n == 0 || n >= 2) && IsBlank(w[0]) && IsBlank(w[1])
    requires tail != [] && WellCut(CutBreak(n), tail)
    ensures WellCut(before, [Piece(w[..CutAt(n)] + [NEWLINE], CutBreak(n))] + tail)
  {
    hide IsBlank, IsNewline, WellCut;
    WellCutFirst(before, Piece(w[..CutAt(n)] + [NEWLINE], CutBreak(n)), tail);
  }

  lemma StartBlank(start: seq<Cell>, rest: seq<Cell>)
    requires forall k :: 0 <= k < |start| ==> IsBlank(start[k])
    requires 0 !in start && 0 !in rest
    ensures forall k :: 0 <= k < |start| ==> !IsNewline((start + rest)[k])
    ensures 0 !in start + rest
  {
    forall k | 0 <= k < |start| ensures !IsNewline((start + rest)[k]) { BlankOrNewline(start[k]); }
  }

  lemma NextStartIs(w: seq<Cell>, n: nat, spc: Cell)
    requires n < |w| && IsBlank(spc) && (n != 0 ==> IsBlank(w[n]))
    ensures var s := NextStart(w, n, spc); |s| == 2 && 0 !in s && IsBlank(s[0]) && IsBlank(s[1])
  {
    BlankOrNewline(spc);
    BlankOrNewline(NextStart(w, n, spc)[1]);
  }

  lemma NotEmpty(start: seq<Cell>, rest: seq<Cell>, spc: Cell)
    requires |start| == 2
    ensures Wrapped(start, rest, spc) != []
  {}

  lemma WellCutNone()
    ensures forall b :: WellCut(b, [])
  {}

  lemma WellCutFirst(before: Break, p: Piece, tail: seq<Piece>)
    requires 0 < |p.line| <= COL && 0 !in p.line && forall i :: 0 <= i < |p.line| - 1 ==> !IsNewline(p.line[i])
    requires !p.after.Given? ==> p.line[|p.line| - 1] == NEWLINE && tail != []
    requires p.after.Given? && tail != [] ==> IsNewline(p.line[|p.line| - 1])
    requires !before.Given? ==> |p.line| >= 2 && IsBlank(p.line[0]) && IsBlank(p.line[1])
    requires WellCut(p.after, tail)
    ensures WellCut(before, [p] + tail)
  {
    assert ([p] + tail)[1..] == tail;
  }

  // ----------------------------------------------------------- the program

  datatype Line = Line(line: seq<Cell>, len: int)

  function Texts(ls: seq<Line>): (ts: seq<seq<Cell>>) {
    if ls == [] then [] else Texts(ls[..|ls| - 1]) + [ls[|ls| - 1].line]
  }

  /** `chstrdup`: copy up to the first zero cell. */
  method ChStrDup(buffer: array<Cell>, ghost end: nat) returns (s: seq<Cell>)
    requires end < buffer.Length && buffer[end] == 0 && forall k :: 0 <= k < end ==> buffer[k] != 0
    ensures s == buffer[..end]
  {
    s := [];
    var i := 0;
    while buffer[i] != 0
      invariant 0 <= i <= end && s == buffer[..i]
      decreases end - i
    {
      assert i < end;
      s := s + [buffer[i]];
      i := i + 1;
    }
  }

  /** The loop that moves what follows a cut to the front, behind three cells. */
  method Refill(buffer: array<Cell>, from: nat, ghost end: nat) returns (pos: nat)
    requires 3 <= from <= end < buffer.Length && buffer[end] == 0
    requires forall k :: from <= k < end ==> buffer[k] != 0
    modifies buffer
    ensures pos == 3 + (end - from) <= end
    ensures forall k :: 0 <= k < 3 ==> buffer[k] == old(buffer[k])
    ensures forall k :: 3 <= k < pos ==> buffer[k] == old(buffer[from + (k - 3)])
    ensures forall k :: pos <= k < buffer.Length ==> buffer[k] == old(buffer[k])
  {
    var mstr := from;
    pos := 3;
    while buffer[mstr] != 0
      invariant from <= mstr <= end && pos == 3 + (mstr - from)
      invariant forall k :: 0 <= k < 3 ==> buffer[k] == old(buffer[k])
      invariant forall k :: 3 <= k < pos ==> buffer[k] == old(buffer[from + (k - 3)])
      invariant forall k :: pos <= k < buffer.Length ==> buffer[k] == old(buffer[k])
      decreases end - mstr
    {
      buffer[pos] := buffer[mstr];
      pos, mstr := pos + 1, mstr + 1;
    }
  }

  /** A full buffer: 77 cells, and zeros in the two places behind them. */
  ghost predicate Full(buffer: array<Cell>)
    reads buffer
  {
    && buffer.Length == LARGBUF && buffer[COL] == 0 && buffer[COL + 1] == 0
    && forall k :: 0 <= k < COL ==> buffer[k] != 0
  }

  /** Put a newline at a place, end the line behind it, and copy it. */
  method CutAway(buffer: array<Cell>, at: nat) returns (l: Line)
    requires at + 1 < buffer.Length && forall k :: 0 <= k < at ==> buffer[k] != 0
    modifies buffer
    ensures l == Line(old(buffer[..at]) + [NEWLINE], at + 1)
    ensures forall k :: 0 <= k < buffer.Length && k != at && k != at + 1 ==> buffer[k] == old(buffer[k])
    ensures buffer[at + 1] == 0
  {
    buffer[at] := NEWLINE;
    buffer[at + 1] := 0;
    var line := ChStrDup(buffer, at + 1);
    l := Line(line, at + 1);
    assert line == old(buffer[..at]) + [NEWLINE];
  }

  /** No blank to break at: cut before the last cell. */
  method CutHard(buffer: array<Cell>, spc: Cell) returns (l: Line, pos: nat)
    requires Full(buffer)
    modifies buffer
    ensures l == Line(old(buffer[..COL - 1]) + [NEWLINE], COL)
    ensures pos == 3 && buffer[0] == buffer[1] == spc && buffer[2] == old(buffer[COL - 1])
    ensures buffer[COL] == 0 && buffer[COL + 1] == 0
  {
    var col := COL;
    var c := buffer[col - 1];
    l := CutAway(buffer, col - 1);
    buffer[0], buffer[1], buffer[2] := spc, spc, c;
    pos := Refill(buffer, col + 1, col + 1);
  }

  /** Cut at the last blank, which goes to the next line with all that follows.
      (In the last column nothing follows, and the third cell stays empty.) */
  method CutSoft(buffer: array<Cell>, spc: Cell, wbreak: nat) returns (l: Line, pos: nat)
    requires Full(buffer) && 0 < wbreak < COL
    modifies buffer
    ensures l == Line(old(buffer[..wbreak]) + [NEWLINE], wbreak + 1)
    ensures pos == if wbreak == COL - 1 then 3 else COL + 1 - wbreak
    ensures buffer[0] == spc
    ensures forall k :: 1 <= k < pos ==> buffer[k] == old(buffer[wbreak + (k - 1)])
    ensures buffer[COL] == 0 && buffer[COL + 1] == 0
  {
    var c, mc := buffer[wbreak], buffer[wbreak + 1];
    l := CutAway(buffer, wbreak);
    buffer[0], buffer[1], buffer[2] := spc, c, mc;
    ghost var end := if wbreak == COL - 1 then COL + 1 else COL;
    pos := Refill(buffer, wbreak + 2, end);
  }

  /** The first cells of the buffer are those of `buf`, none of them zero. */
  ghost predicate Holds(buffer: array<Cell>, buf: seq<Cell>)
    reads buffer
  {
    && buffer.Length == LARGBUF && buffer[COL] == 0 && buffer[COL + 1] == 0 && |buf| <= COL
    && forall k :: 0 <= k < |buf| ==> buffer[k] == buf[k] != 0
  }

  /** Close the line in the buffer and copy it. */
  method Flush(buffer: array<Cell>, pos: nat, ghost buf: seq<Cell>) returns (l: Line)
    requires Holds(buffer, buf) && pos == |buf|
    modifies buffer
    ensures Holds(buffer, buf) && Holds(buffer, []) && l == Line(buf, pos) && (buffer[0] == 0 <==> buf == [])
  {
    buffer[pos] := 0;
    var line := ChStrDup(buffer, pos);
    l := Line(line, pos);
  }

  /** The line that a full buffer gives, and the cells that start the next one. */
  function CutLine(buf: seq<Cell>, wbreak: nat): Line
    requires |buf| == COL && wbreak < COL
  {
    var n := if wbreak == 0 then COL - 1 else wbreak;
    Line(buf[..n] + [NEWLINE], n + 1)
  }

  function CutRest(buf: seq<Cell>, wbreak: nat, spc: Cell): seq<Cell>
    requires |buf| == COL && wbreak < COL
  {
    if wbreak == 0 then [spc, spc, buf[COL - 1]]
    else if wbreak == COL - 1 then [spc, buf[wbreak]]
    else [spc] + buf[wbreak..COL - 1]
  }

  /** The wrapping branch; after a cut at a blank the last cell is read again. */
  method Cut(buffer: array<Cell>, spc: Cell, wbreak: nat, ghost buf: seq<Cell>) returns (l: Line, pos: nat, again: bool)
    requires Holds(buffer, buf) && |buf| == COL && wbreak < COL && spc != 0
    modifies buffer
    ensures l == CutLine(buf, wbreak) && again == (wbreak != 0)
    ensures pos == (if wbreak == 0 then 3 else if wbreak == COL - 1 then 2 else COL - wbreak)
    ensures |CutRest(buf, wbreak, spc)| == pos && Holds(buffer, CutRest(buf, wbreak, spc))
  {
    assert buffer[..COL] == buf;
    again := wbreak != 0;
    if !again {
      l, pos := CutHard(buffer, spc);
      assert buf[..COL - 1] == old(buffer[..COL - 1]);
    } else {
      l, pos := CutSoft(buffer, spc, wbreak);
      assert buf[..wbreak] == old(buffer[..wbreak]);
      pos := pos - 1;
    }
  }

  predicate Honest(ls: seq<Line>) {
    forall i :: 0 <= i < |ls| ==> ls[i].len == |ls[i].line|
  }

  /** Between two input cells: the line being collected holds `start` and the
      first k cells of `rest`, wbreak is its last blank, and the lines so far
      with those still to come are the ones to reach. */
  datatype State = State(start: seq<Cell>, rest: seq<Cell>, k: nat)

  ghost predicate Ready(s: State, ls: seq<Line>, buf: seq<Cell>, wbreak: nat, left: seq<Cell>, spc: Cell, goal: seq<seq<Cell>>) {
    match s
    case State(start, rest, k) =>
      && (|start| == 0 || |start| == 2) && k <= |rest| && 0 !in rest
      && buf == start + rest[..k] && left == rest[k..]
      && (forall i :: 0 <= i < |buf| ==> buf[i] != 0 && !IsNewline(buf[i]))
      && wbreak == LastBlank(buf, |start|, |buf|) && Honest(ls)
      && Texts(ls) + Lines(Wrapped(start, rest, spc)) == goal
  }

  lemma {:induction false} LastBlankOfPrefix(w: seq<Cell>, from: nat, to: nat, n: nat)
    requires to <= n <= |w|
    ensures LastBlank(w[..n], from, to) == LastBlank(w, from, to)
    ensures LastBlank(w, from, to) == 0 || LastBlank(w, from, to) < to
  {
    if to > from { LastBlankOfPrefix(w, from, to - 1, n); }
  }

  lemma StepCell(s: State, ls: seq<Line>, buf: seq<Cell>, wbreak: nat, left: seq<Cell>, spc: Cell, goal: seq<seq<Cell>>)
    requires Ready(s, ls, buf, wbreak, left, spc, goal) && left != [] && !IsNewline(left[0])
    ensures Ready(State(s.start, s.rest, s.k + 1), ls, buf + [left[0]],
                  if IsBlank(left[0]) then |buf| else wbreak, left[1..], spc, goal)
  {
    hide Texts, Wrapped, Lines, IsBlank, IsNewline, LastBlank;
    LastBlankNext(buf, left[0], |s.start|);
    assert s.rest[..s.k + 1] == s.rest[..s.k] + [s.rest[s.k]];
  }

  lemma LastBlankNext(buf: seq<Cell>, ch: Cell, from: nat)
    requires from <= |buf|
    ensures LastBlank(buf + [ch], from, |buf| + 1) == if IsBlank(ch) then |buf| else LastBlank(buf, from, |buf|)
  {
    hide IsBlank;
    LastBlankOfPrefix(buf + [ch], from, |buf|, |buf|);
    assert (buf + [ch])[..|buf|] == buf;
  }

  lemma {:induction false} FirstNewlineIs(w: seq<Cell>, i: nat, e: nat)
    requires i <= e < |w| && IsNewline(w[e]) && forall k :: i <= k < e ==> !IsNewline(w[k])
    ensures FirstNewline(w, i) == e
  {}

  /** What one more emitted line does to the lines still to come. */
  lemma Emit(ls: seq<Line>, l: Line, b: Break, tail: seq<Piece>)
    ensures Texts(ls + [l]) + Lines(tail) == Texts(ls) + Lines([Piece(l.line, b)] + tail)
  {
    assert (ls + [l])[..|ls|] == ls;
    assert ([Piece(l.line, b)] + tail)[1..] == tail;
  }

  lemma StepNewline(s: State, ls: seq<Line>, buf: seq<Cell>, wbreak: nat, left: seq<Cell>, spc: Cell, goal: seq<seq<Cell>>)
    requires Ready(s, ls, buf, wbreak, left, spc, goal) && left != [] && IsNewline(left[0]) && |buf| < COL
    ensures Ready(State([], left[1..], 0), ls + [Line(buf + [left[0]], |buf| + 1)], [], 0, left[1..], spc, goal)
  {
    hide Texts, Lines, CharText, LastBlank, FirstNewline, Wrapped;
    var w := s.start + s.rest;
    SplitBuffer(s, buf, left);
    assert w[|buf|] == left[0];
    FirstNewlineIs(w, |s.start|, |buf|);
    AtNewline(s.start, s.rest, spc, |buf|);
    assert w[..|buf| + 1] == buf + [left[0]] && w[|buf| + 1..] == left[1..];
    Emit(ls, Line(buf + [left[0]], |buf| + 1), Given, Wrapped([], left[1..], spc));
  }

  /** The lines still to come, before and after a cut. */
  lemma CutGoal(s: State, ls: seq<Line>, n: nat, spc: Cell)
    requires |s.start| == 0 || |s.start| == 2
    requires var w := s.start + s.rest;
             |w| >= COL && FirstNewline(w, |s.start|) >= COL && n == LastBlank(w, |s.start|, COL)
    ensures var w := s.start + s.rest;
      && n < COL && NextFrom(n) < |w| && |NextStart(w, n, spc)| == 2 && (n != 0 ==> IsBlank(w[n]))
      && Texts(ls + [CutLine(w[..COL], n)]) + Lines(Wrapped(NextStart(w, n, spc), w[NextFrom(n)..], spc))
         == Texts(ls) + Lines(Wrapped(s.start, s.rest, spc))
  {
    hide Texts, Lines, FirstNewline, LastBlank, Wrapped, IsBlank, IsNewline, CutRest;
    var w := s.start + s.rest;
    AtCut(s.start, s.rest, spc, n);
    CutRestIs(w, n, spc);
    Emit(ls, CutLine(w[..COL], n), CutBreak(n), Wrapped(NextStart(w, n, spc), w[NextFrom(n)..], spc));
  }

  /** How many cells of what follows a cut are in the buffer already. */
  function Carried(n: nat): nat
    requires n < COL
  {
    if n == 0 then 1 else COL - 1 - NextFrom(n)
  }

  lemma CutState(w: seq<Cell>, buf: seq<Cell>, left: seq<Cell>, n: nat, spc: Cell)
    requires |w| >= COL > n && buf == w[..COL] && left == w[COL..]
    ensures var rest, k := w[NextFrom(n)..], Carried(n);
      && k <= |rest| && CutRest(buf, n, spc) == NextStart(w, n, spc) + rest[..k]
      && rest[k..] == if n == 0 then left else [buf[COL - 1]] + left
  {
    hide CutRest, NextStart;
    CutRestIs(w, n, spc);
  }

  lemma StepCut(s: State, ls: seq<Line>, buf: seq<Cell>, wbreak: nat, left: seq<Cell>, spc: Cell, goal: seq<seq<Cell>>)
    returns (t: State)
    requires Ready(s, ls, buf, wbreak, left, spc, goal) && |buf| == COL && IsBlank(spc) && spc != 0
    ensures wbreak < COL
    ensures Ready(t, ls + [CutLine(buf, wbreak)], CutRest(buf, wbreak, spc), 0,
                  if wbreak == 0 then left else [buf[COL - 1]] + left, spc, goal)
  {
    hide Texts, Lines, CharText, FirstNewline, LastBlank, Wrapped, CutRest, IsNewline, CutBreak, CutAt, NextStart, NextFrom, Carried, CutLine, IsBlank;
    var w, n := s.start + s.rest, wbreak;
    SplitBuffer(s, buf, left);
    LastBlankOfPrefix(w, |s.start|, COL, COL);
    NewlineLater(w, |s.start|, COL);
    CutGoal(s, ls, n, spc);
    t := State(NextStart(w, n, spc), w[NextFrom(n)..], Carried(n));
    CutState(w, buf, left, n, spc);
    NoZeros(s, buf);
    CutRestIsClean(buf, |s.start|, n, spc);
    CutHonest(ls, buf, n);
  }

  lemma CutHonest(ls: seq<Line>, buf: seq<Cell>, n: nat)
    requires Honest(ls) && |buf| == COL > n
    ensures Honest(ls + [CutLine(buf, n)])
  {}

  lemma NoZeros(s: State, buf: seq<Cell>)
    requires s.k <= |s.rest| && buf == s.start + s.rest[..s.k] && 0 !in s.rest
    requires forall i :: 0 <= i < |buf| ==> buf[i] != 0
    ensures 0 !in s.start + s.rest
  {
    assert forall i :: 0 <= i < |s.start| ==> s.start[i] == buf[i];
  }

  lemma SplitBuffer(s: State, buf: seq<Cell>, left: seq<Cell>)
    requires s.k <= |s.rest| && buf == s.start + s.rest[..s.k] && left == s.rest[s.k..]
    ensures (s.start + s.rest)[..|buf|] == buf && (s.start + s.rest)[|buf|..] == left
  {}

  lemma NewlineLater(w: seq<Cell>, i: nat, n: nat)
    requires i <= n <= |w| && forall k :: i <= k < n ==> !IsNewline(w[..n][k])
    ensures FirstNewline(w, i) >= n
  {
    assert forall k :: i <= k < n ==> w[..n][k] == w[k];
  }

  lemma CutRestIs(w: seq<Cell>, n: nat, spc: Cell)
    requires |w| >= COL > n
    ensures var f := NextFrom(n);
            var k := if n == 0 then 1 else COL - 1 - f;
            && CutRest(w[..COL], n, spc) == NextStart(w, n, spc) + w[f..][..k]
            && w[f..][k..] == (if n == 0 then w[COL..] else [w[COL - 1]] + w[COL..])
            && CutLine(w[..COL], n).line == w[..CutAt(n)] + [NEWLINE]
  {
    Pieces(w, COL - 1);
    assert w[..COL][..CutAt(n)] == w[..CutAt(n)];
    if n == 0 {
      assert w[COL - 1..][..1] == [w[COL - 1]];
    } else if n == COL - 1 {
      assert w[COL - 1..][..0] == [];
    } else {
      Middle(w, n);
    }
  }

  lemma Middle(w: seq<Cell>, n: nat)
    requires |w| >= COL && n < COL - 1
    ensures w[..COL][n..COL - 1] == [w[n]] + w[n + 1..][..COL - 2 - n]
    ensures w[n + 1..][COL - 2 - n..] == w[COL - 1..]
  {}

  lemma CutRestIsClean(buf: seq<Cell>, from: nat, n: nat, spc: Cell)
    requires |buf| == COL && n == LastBlank(buf, from, COL) && from <= 2 && IsBlank(spc)
    requires forall i :: 0 <= i < |buf| ==> buf[i] != 0 && !IsNewline(buf[i])
    ensures n < COL
    ensures var r := CutRest(buf, n, spc);
            && |r| >= 2 && (forall i :: 0 <= i < |r| ==> r[i] != 0 && !IsNewline(r[i]))
            && LastBlank(r, 2, |r|) == 0
  {
    hide CharText, IsBlank, IsNewline, LastBlank;
    BlankOrNewline(spc);
    var r := CutRest(buf, n, spc);
    CutRestNoBlank(buf, from, n, spc);
    NoBlank(r, 2, |r|);
  }

  lemma CutRestNoBlank(buf: seq<Cell>, from: nat, n: nat, spc: Cell)
    requires |buf| == COL && n == LastBlank(buf, from, COL) && from <= 2
    ensures n < COL
    ensures var r := CutRest(buf, n, spc); forall i :: 2 <= i < |r| ==> !IsBlank(r[i])
  {
    hide IsBlank;
    var r := CutRest(buf, n, spc);
    if n != COL - 1 {
      forall i | 2 <= i < |r| ensures !IsBlank(r[i]) {
        assert r[i] == if n == 0 then buf[COL - 1] else buf[n + (i - 1)];
      }
    }
  }

  lemma NoBlank(w: seq<Cell>, from: nat, to: nat)
    requires to <= |w| && forall k :: from <= k < to ==> !IsBlank(w[k])
    ensures LastBlank(w, from, to) == 0
  {}

  lemma StepEnd(s: State, ls: seq<Line>, buf: seq<Cell>, wbreak: nat, spc: Cell, goal: seq<seq<Cell>>)
    requires Ready(s, ls, buf, wbreak, [], spc, goal) && |buf| < COL
    ensures var all := if buf == [] then ls else ls + [Line(buf, |buf|)];
            Texts(all) == goal && Honest(all)
  {
    hide Texts, Lines, CharText, LastBlank, FirstNewline, Wrapped, IsNewline;
    WholeBuffer(s, buf);
    NoNewline(buf, |s.start|);
    AtEnd(s.start, s.rest, spc);
    if buf == [] {
      NoLines();
      assert Texts(ls) + [] == Texts(ls);
    } else {
      EmitLast(ls, Line(buf, |buf|));
    }
  }

  lemma WholeBuffer(s: State, buf: seq<Cell>)
    requires s.k <= |s.rest| && buf == s.start + s.rest[..s.k] && s.rest[s.k..] == []
    ensures s.start + s.rest == buf
  {
    assert s.rest[..s.k] == s.rest;
  }

  lemma NoNewline(w: seq<Cell>, i: nat)
    requires i <= |w| && forall k :: 0 <= k < |w| ==> !IsNewline(w[k])
    ensures FirstNewline(w, i) == |w|
  {
    hide IsNewline;
    var e := FirstNewline(w, i);
  }

  lemma EmitLast(ls: seq<Line>, l: Line)
    ensures Texts(ls + [l]) == Texts(ls) + Lines([Piece(l.line, Given)])
  {
    hide Texts, Lines;
    Emit(ls, l, Given, []);
    NoLines();
    assert [Piece(l.line, Given)] + [] == [Piece(l.line, Given)];
    assert Texts(ls + [l]) + [] == Texts(ls + [l]);
  }

  lemma NoLines()
    ensures Lines([]) == [] && Texts([]) == []
  {}

  /** The state `s` describes the variables of the loop. */
  ghost predicate Tracks(s: State, buffer: array<Cell>, ls: seq<Line>, buf: seq<Cell>, wbreak: nat, left: seq<Cell>, spc: Cell, goal: seq<seq<Cell>>)
    reads buffer
  {
    match s
    case State(_, _, _) =>
      Ready(s, ls, buf, wbreak, left, spc, goal) && Holds(buffer, buf) && (wbreak == 0 || wbreak < |buf|)
  }

  /** Collect one cell that is no newline. */
  method TakeCell(buffer: array<Cell>, ch: Cell, pos: nat, wbreak: nat, spc: Cell,
                  ghost ls: seq<Line>, ghost buf: seq<Cell>, ghost left: seq<Cell>, ghost s: State, ghost goal: seq<seq<Cell>>)
    returns (last: nat, ghost t: State)
    requires Tracks(s, buffer, ls, buf, wbreak, left, spc, goal) && pos == |buf| < COL
    requires left != [] && ch == left[0] && !IsNewline(ch)
    modifies buffer
    ensures Tracks(t, buffer, ls, buf + [ch], last, left[1..], spc, goal)
    ensures last == if IsBlank(ch) then pos else wbreak
  {
    hide Ready, CharText;
    buffer[pos] := ch;
    last := if IsBlank(ch) then pos else wbreak;
    StepCell(s, ls, buf, wbreak, left, spc, goal);
    t := State(s.start, s.rest, s.k + 1);
    ReadyHasNoZero(t, ls, buf + [ch], last, left[1..], spc, goal);
  }

  lemma ReadyHasNoZero(s: State, ls: seq<Line>, buf: seq<Cell>, wbreak: nat, left: seq<Cell>, spc: Cell, goal: seq<seq<Cell>>)
    requires Ready(s, ls, buf, wbreak, left, spc, goal)
    ensures forall i :: 0 <= i < |buf| ==> buf[i] != 0
  {
    hide LastBlank, Wrapped, Lines, Texts, CharText;
  }

  /** A newline ends the line. */
  method TakeNewline(buffer: array<Cell>, ch: Cell, pos: nat, wbreak: nat, spc: Cell, output: seq<Line>,
                     ghost buf: seq<Cell>, ghost left: seq<Cell>, ghost s: State, ghost goal: seq<seq<Cell>>)
    returns (all: seq<Line>, ghost t: State)
    requires Tracks(s, buffer, output, buf, wbreak, left, spc, goal) && pos == |buf| < COL
    requires left != [] && ch == left[0] && IsNewline(ch)
    modifies buffer
    ensures Tracks(t, buffer, all, [], 0, left[1..], spc, goal)
  {
    hide Ready, CharText;
    BlankOrNewline(ch);
    StepNewline(s, output, buf, wbreak, left, spc, goal);
    buffer[pos] := ch;
    var l := Flush(buffer, pos + 1, buf + [ch]);
    all := output + [l];
    t := State([], left[1..], 0);
  }

  /** The buffer is full. */
  method TakeCut(buffer: array<Cell>, wbreak: nat, spc: Cell, output: seq<Line>,
                 ghost buf: seq<Cell>, ghost left: seq<Cell>, ghost s: State, ghost goal: seq<seq<Cell>>)
    returns (all: seq<Line>, pos: nat, again: bool, ghost t: State)
    requires Tracks(s, buffer, output, buf, wbreak, left, spc, goal) && |buf| == COL && IsBlank(spc)
    modifies buffer
    ensures wbreak < COL && again == (wbreak != 0)
    ensures pos == (if wbreak == 0 then 3 else if wbreak == COL - 1 then 2 else COL - wbreak)
    ensures |CutRest(buf, wbreak, spc)| == pos
    ensures Tracks(t, buffer, all, CutRest(buf, wbreak, spc), 0, if again then [buf[COL - 1]] + left else left, spc, goal)
  {
    hide Ready, CharText, CutLine, CutRest;
    BlankOrNewline(spc);
    t := StepCut(s, output, buf, wbreak, left, spc, goal);
    var l;
    l, pos, again := Cut(buffer, spc, wbreak, buf);
    all := output + [l];
  }

  /** The end of the input: what has been collected is the last line. */
  method TakeEnd(buffer: array<Cell>, pos: nat, wbreak: nat, spc: Cell, output: seq<Line>,
                 ghost buf: seq<Cell>, ghost s: State, ghost goal: seq<seq<Cell>>)
    returns (all: seq<Line>)
    requires Tracks(s, buffer, output, buf, wbreak, [], spc, goal) && pos == |buf| < COL
    modifies buffer
    ensures Texts(all) == goal && Honest(all)
  {
    hide Ready, CharText;
    StepEnd(s, output, buf, wbreak, spc, goal);
    var l := Flush(buffer, pos, buf);
    all := output;
    if buffer[0] != 0 {
      all := all + [l];
    }
  }

  lemma Start(str: seq<Cell>, spc: Cell)
    requires 0 !in str
    ensures Ready(State([], str, 0), [], [], 0, str, spc, Lines(Wrapped([], str, spc)))
  {
    hide Wrapped, Lines;
    NoLines();
  }

  /** An empty message is shown as a blank. */
  function Message(str: seq<Cell>, spc: Cell): seq<Cell> { if str == [] then [spc] else str }

  /** At most 77 cells, with a newline at the end alone. */
  predicate Tidy(line: seq<Cell>) {
    0 < |line| <= COL && 0 !in line && forall k :: 0 <= k < |line| - 1 ==> !IsNewline(line[k])
  }

  predicate Ends(line: seq<Cell>) { line != [] && IsNewline(line[|line| - 1]) }

  predicate GoesOn(line: seq<Cell>) { |line| >= 2 && IsBlank(line[0]) && IsBlank(line[1]) }

  // ---------------------------------- the lines, said of the message alone

  predicate NewlineAt(m: seq<Cell>, k: nat) { k < |m| && m[k] % 0x100 == 0x0A }

  predicate BlankAt(m: seq<Cell>, k: nat) { k < |m| && m[k] % 0x100 == 0x20 }

  /** The message goes on at k in the middle of a line. */
  predicate MidLine(m: seq<Cell>, k: nat) { 0 < k < |m| && !NewlineAt(m, k - 1) }

  /** The cells put before m[from], where a line goes on; `full` when the line before
      took 77 cells. */
  function Margin(m: seq<Cell>, spc: Cell, from: nat, full: bool): (r: seq<Cell>)
    ensures |r| <= 2
  {
    if !MidLine(m, from) then [] else if !full then [spc] else [spc, if BlankAt(m, from) then m[from] else spc]
  }

  /** A line made of m[from..to].  Where the message goes on, 77 cells without a newline
      were there, and the cut is at the last blank of them or before the last cell; the
      first cell of a line and the two cells that a line goes on with are no such blanks. */
  predicate Row(m: seq<Cell>, spc: Cell, from: nat, to: nat, full: bool, line: seq<Cell>) {
    match line
    case _ =>
      var margin := Margin(m, spc, from, full);
      var room := from + 77 - |margin|;
      var first := if margin == [] then from + 1 else from + 2 - |margin|;
      && from <= to <= |m|
      && line == margin + m[from..to] + (if MidLine(m, to) then [0x0A] else [])
      && (forall k :: from <= k < to - 1 ==> !NewlineAt(m, k))
      && (!MidLine(m, to) ==> from < to && |line| <= 77 && (|line| == 77 ==> NewlineAt(m, to - 1)))
      && (MidLine(m, to) ==>
            && room <= |m| && (forall k :: from <= k < room ==> !NewlineAt(m, k))
            && first <= to < room && (forall k :: to < k < room ==> !BlankAt(m, k))
            && (BlankAt(m, to) || (to == room - 1 && forall k :: first <= k < room ==> !BlankAt(m, k))))
  }

  /** The lines are made of the message, from at[i] to at[i + 1] each. */
  predicate LaidOut(m: seq<Cell>, spc: Cell, at: seq<nat>, ls: seq<Line>) {
    && |at| == |ls| + 1 && at[0] == 0 && at[|ls|] == |m|
    && forall i :: 0 <= i < |ls| ==> Row(m, spc, at[i], at[i + 1], i > 0 && |ls[i - 1].line| == 77, ls[i].line)
  }

  /** How the text `rest` after `start` is what is left of the message from `from` on. */
  predicate Resumes(m: seq<Cell>, spc: Cell, from: nat, before: Break, start: seq<Cell>, rest: seq<Cell>) {
    match before
    case Given => from <= |m| && !MidLine(m, from) && start == [] && rest == m[from..]
    case Soft => MidLine(m, from) && BlankAt(m, from) && start == [spc, m[from]] && rest == m[from + 1..]
    case SoftAtEdge => MidLine(m, from) && BlankAt(m, from) && start == [spc, m[from]] && rest == m[from..]
    case Hard => MidLine(m, from) && !BlankAt(m, from) && start == [spc, spc] && rest == m[from..]
  }

  /** Where the lines end, if they start at `from`. */
  function Places(from: nat, before: Break, ps: seq<Piece>): (at: seq<nat>)
    ensures |at| == |ps| + 1 && at[0] == from
    decreases |ps|
  {
    if ps == [] then [from] else [from] + Places(from + |Own(ps[0], before)|, ps[0].after, ps[1..])
  }

  /** One line of the reference, and how the text goes on after it. */
  predicate RowOf(m: seq<Cell>, spc: Cell, from: nat, to: nat, before: Break, p: Piece) {
    match p
    case Piece(line, after) =>
      && Row(m, spc, from, to, before.Hard? || before.SoftAtEdge?, line)
      && (after.Given? <==> !MidLine(m, to))
      && (after.Hard? || after.SoftAtEdge? ==> |line| == 77)
      && (after.Soft? ==> |line| < 77)
  }

  lemma ResumesIs(m: seq<Cell>, spc: Cell, from: nat, before: Break, start: seq<Cell>, rest: seq<Cell>)
    requires Resumes(m, spc, from, before, start, rest)
    ensures var margin := Margin(m, spc, from, before.Hard? || before.SoftAtEdge?);
            && from <= |m| && start + rest == margin + m[from..] && |margin| == Indent(before)
            && (margin == [] <==> start == []) && (start == [] || |start| == 2)
            && (start == [] <==> !MidLine(m, from))
  {}

  /** The cells of the line, in the message. */
  lemma Slices(m: seq<Cell>, from: nat, margin: seq<Cell>, w: seq<Cell>, to: nat)
    requires from <= to <= |m| && w == margin + m[from..]
    ensures var c := to - from + |margin|; c <= |w| && w[..c] == margin + m[from..to] && w[c..] == m[to..]
  {}

  lemma CellAt(m: seq<Cell>, from: nat, margin: seq<Cell>, w: seq<Cell>, k: nat)
    requires from <= k < |m| && w == margin + m[from..]
    ensures k - from + |margin| < |w| && w[k - from + |margin|] == m[k]
    ensures NewlineAt(m, k) <==> IsNewline(w[k - from + |margin|])
    ensures BlankAt(m, k) <==> IsBlank(w[k - from + |margin|])
  {}

  /** Up to the hi-th cell of the line there is no newline in the message. */
  lemma NoNewlines(m: seq<Cell>, spc: Cell, from: nat, before: Break, start: seq<Cell>, rest: seq<Cell>, hi: nat)
    requires Resumes(m, spc, from, before, start, rest) && |start| <= hi <= |start + rest|
    requires forall k :: |start| <= k < hi ==> !IsNewline((start + rest)[k])
    ensures forall k :: from <= k < from + hi - Indent(before) ==> !NewlineAt(m, k)
  {
    var w, margin := start + rest, Margin(m, spc, from, before.Hard? || before.SoftAtEdge?);
    ResumesIs(m, spc, from, before, start, rest);
    var own := before.Soft? ==> BlankAt(m, from);
    assert own && |start| == if before.Soft? then |margin| + 1 else |margin|;
    hide Margin, IsNewline, Resumes;
    forall k | from <= k < from + hi - |margin| ensures !NewlineAt(m, k) {
      if k - from + |margin| >= |start| {
        CellAt(m, from, margin, w, k);
        assert !IsNewline(w[k - from + |margin|]);
      }
    }
  }

  lemma RowUncut(m: seq<Cell>, spc: Cell, from: nat, to: nat, full: bool, line: seq<Cell>)
    requires from < to <= |m| && !MidLine(m, to) && line == Margin(m, spc, from, full) + m[from..to]
    requires |line| <= 77 && (|line| == 77 ==> NewlineAt(m, to - 1))
    requires forall k :: from <= k < to - 1 ==> !NewlineAt(m, k)
    ensures Row(m, spc, from, to, full, line)
  {
    hide Margin;
    assert line + [] == line;
  }

  /** Where a line ends that a newline ends. */
  lemma NewlinePlace(m: seq<Cell>, spc: Cell, from: nat, before: Break, start: seq<Cell>, rest: seq<Cell>, e: nat)
    requires Resumes(m, spc, from, before, start, rest)
    requires e == FirstNewline(start + rest, |start|) && e < COL && e < |start + rest|
    ensures var w, to := start + rest, from + e + 1 - Indent(before);
            && from < to <= |m| && NewlineAt(m, to - 1) && (forall k :: from <= k < to - 1 ==> !NewlineAt(m, k))
            && w[..e + 1] == Margin(m, spc, from, before.Hard? || before.SoftAtEdge?) + m[from..to]
            && w[e + 1..] == m[to..] && |w[..e + 1]| == e + 1
            && |Margin(m, spc, from, before.Hard? || before.SoftAtEdge?)| == Indent(before)
  {
    var w, margin := start + rest, Margin(m, spc, from, before.Hard? || before.SoftAtEdge?);
    ResumesIs(m, spc, from, before, start, rest);
    var to := from + e + 1 - |margin|;
    NoNewlines(m, spc, from, before, start, rest, e);
    Slices(m, from, margin, w, to);
    CellAt(m, from, margin, w, to - 1);
    hide Margin, FirstNewline, IsNewline, NewlineAt;
  }

  lemma NewLineStarts(m: seq<Cell>, spc: Cell, to: nat)
    requires 0 < to <= |m| && NewlineAt(m, to - 1)
    ensures Resumes(m, spc, to, Given, [], m[to..])
  {}

  /** A line of the message up to a newline or the end. */
  lemma RowGiven(m: seq<Cell>, spc: Cell, from: nat, to: nat, before: Break, line: seq<Cell>)
    requires from < to <= |m| && (NewlineAt(m, to - 1) || to == |m|) && forall k :: from <= k < to - 1 ==> !NewlineAt(m, k)
    requires var margin := Margin(m, spc, from, before.Hard? || before.SoftAtEdge?);
             line == margin + m[from..to] && |margin| == Indent(before)
    requires |line| < 77 || (|line| == 77 && NewlineAt(m, to - 1))
    ensures RowOf(m, spc, from, to, before, Piece(line, Given)) && |Own(Piece(line, Given), before)| == to - from
  {
    OwnGiven(line, before);
    hide Margin, NewlineAt, Row, Own;
    RowUncut(m, spc, from, to, before.Hard? || before.SoftAtEdge?, line);
  }

  lemma RowAtNewline(m: seq<Cell>, spc: Cell, from: nat, before: Break, start: seq<Cell>, rest: seq<Cell>, e: nat, line: seq<Cell>)
    requires Resumes(m, spc, from, before, start, rest)
    requires e == FirstNewline(start + rest, |start|) && e < COL && e < |start + rest| && line == (start + rest)[..e + 1]
    ensures var to := from + |Own(Piece(line, Given), before)|;
            && RowOf(m, spc, from, to, before, Piece(line, Given))
            && Resumes(m, spc, to, Given, [], (start + rest)[e + 1..])
  {
    hide Margin, FirstNewline, Own, NewlineAt, Resumes, RowOf;
    NewlinePlace(m, spc, from, before, start, rest, e);
    var to := from + e + 1 - Indent(before);
    RowGiven(m, spc, from, to, before, line);
    NewLineStarts(m, spc, to);
  }

  lemma RowAtEnd(m: seq<Cell>, spc: Cell, from: nat, before: Break, start: seq<Cell>, rest: seq<Cell>)
    requires Resumes(m, spc, from, before, start, rest) && start + rest != []
    requires |start + rest| < COL && FirstNewline(start + rest, |start|) == |start + rest|
    ensures var p := Piece(start + rest, Given);
            from + |Own(p, before)| == |m| && RowOf(m, spc, from, |m|, before, p)
  {
    var w, full := start + rest, before.Hard? || before.SoftAtEdge?;
    var margin := Margin(m, spc, from, full);
    ResumesIs(m, spc, from, before, start, rest);
    NoNewlines(m, spc, from, before, start, rest, |w|);
    Slices(m, from, margin, w, |m|);
    OwnGiven(w, before);
    hide Margin, FirstNewline, Own, IsNewline, Row;
    assert w[..|w|] == w && |w| == |margin| + |m| - from;
    RowUncut(m, spc, from, |m|, full, w);
  }

  /** Where a line is cut, seen in the message. */
  lemma CutPlace(m: seq<Cell>, spc: Cell, from: nat, before: Break, start: seq<Cell>, rest: seq<Cell>, n: nat)
    requires Resumes(m, spc, from, before, start, rest)
    requires |start + rest| >= COL && FirstNewline(start + rest, |start|) >= COL && n == LastBlank(start + rest, |start|, COL)
    ensures var to := from + CutAt(n) - Indent(before); var room := from + COL - Indent(before);
            var first := if start == [] then from + 1 else from + 2 - Indent(before);
            && n < COL && room <= |m| && first <= to < room && (forall k :: from <= k < room ==> !NewlineAt(m, k))
            && (forall k :: to < k < room ==> !BlankAt(m, k)) && (BlankAt(m, to) <==> n != 0)
            && (n == 0 ==> to == room - 1 && forall k :: first <= k < room ==> !BlankAt(m, k))
            && MidLine(m, to)
  {
    var w, margin := start + rest, Margin(m, spc, from, before.Hard? || before.SoftAtEdge?);
    ResumesIs(m, spc, from, before, start, rest);
    NoNewlines(m, spc, from, before, start, rest, COL);
    var to, room := from + CutAt(n) - |margin|, from + COL - |margin|;
    forall k | from <= k < room ensures BlankAt(m, k) <==> IsBlank(w[k - from + |margin|]) { CellAt(m, from, margin, w, k); }
    hide Margin, FirstNewline, LastBlank, IsNewline, IsBlank;
  }

  lemma RowCut(m: seq<Cell>, spc: Cell, from: nat, to: nat, full: bool, line: seq<Cell>)
    requires var margin := Margin(m, spc, from, full);
             var room := from + 77 - |margin|;
             var first := if margin == [] then from + 1 else from + 2 - |margin|;
             && from <= to < |m| && line == margin + m[from..to] + [0x0A] && MidLine(m, to)
             && room <= |m| && (forall k :: from <= k < room ==> !NewlineAt(m, k))
             && first <= to < room && (forall k :: to < k < room ==> !BlankAt(m, k))
             && (BlankAt(m, to) || (to == room - 1 && forall k :: first <= k < room ==> !BlankAt(m, k)))
    ensures Row(m, spc, from, to, full, line)
  {
    hide Margin;
  }

  /** The text that is left after a cut. */
  lemma CutResumes(m: seq<Cell>, spc: Cell, from: nat, margin: seq<Cell>, w: seq<Cell>, n: nat)
    requires from <= |m| && w == margin + m[from..] && n < COL <= |w| && |margin| <= CutAt(n)
    requires var to := from + CutAt(n) - |margin|; MidLine(m, to) && (BlankAt(m, to) <==> n != 0)
    ensures var to := from + CutAt(n) - |margin|;
            Resumes(m, spc, to, CutBreak(n), NextStart(w, n, spc), w[NextFrom(n)..])
  {
    var to := from + CutAt(n) - |margin|;
    CellAt(m, from, margin, w, to);
    Slices(m, from, margin, w, to);
    Slices(m, from, margin, w, to + 1);
  }

  lemma RowAtCut(m: seq<Cell>, spc: Cell, from: nat, before: Break, start: seq<Cell>, rest: seq<Cell>, n: nat, w: seq<Cell>)
    requires Resumes(m, spc, from, before, start, rest) && w == start + rest
    requires |w| >= COL && FirstNewline(w, |start|) >= COL && n == LastBlank(w, |start|, COL)
    ensures n < COL && NextFrom(n) < |w|
    ensures var p := Piece(w[..CutAt(n)] + [NEWLINE], CutBreak(n)); var to := from + |Own(p, before)|;
            && RowOf(m, spc, from, to, before, p)
            && Resumes(m, spc, to, CutBreak(n), NextStart(w, n, spc), w[NextFrom(n)..])
  {
    hide Margin, FirstNewline, LastBlank, NewlineAt, BlankAt, Resumes, Row, NextStart, MidLine;
    var margin := Margin(m, spc, from, before.Hard? || before.SoftAtEdge?);
    ResumesIs(m, spc, from, before, start, rest);
    CutPlace(m, spc, from, before, start, rest, n);
    var to := from + CutAt(n) - |margin|;
    Slices(m, from, margin, w, to);
    CutResumes(m, spc, from, margin, w, n);
    RowCut(m, spc, from, to, before.Hard? || before.SoftAtEdge?, w[..CutAt(n)] + [NEWLINE]);
  }

  /** The lines ps, the first of which starts at `from`. */
  predicate Rows(m: seq<Cell>, spc: Cell, from: nat, before: Break, ps: seq<Piece>) {
    match ps
    case _ =>
      var at := Places(from, before, ps);
      && at[|ps|] == |m|
      && forall i :: 0 <= i < |ps| ==>
           RowOf(m, spc, at[i], at[i + 1], if i == 0 then before else ps[i - 1].after, ps[i])
  }

  lemma RowsCons(m: seq<Cell>, spc: Cell, from: nat, before: Break, p: Piece, ps: seq<Piece>)
    requires var to := from + |Own(p, before)|; RowOf(m, spc, from, to, before, p) && Rows(m, spc, to, p.after, ps)
    ensures Rows(m, spc, from, before, [p] + ps)
  {
    hide RowOf, Own;
    var to, all := from + |Own(p, before)|, [p] + ps;
    assert all[1..] == ps;
    var at, later := Places(from, before, all), Places(to, p.after, ps);
    assert at == [from] + later;
    forall i | 0 <= i < |all|
      ensures RowOf(m, spc, at[i], at[i + 1], if i == 0 then before else all[i - 1].after, all[i])
    {
      if i > 0 { assert all[i] == ps[i - 1] && at[i] == later[i - 1] && at[i + 1] == later[i]; }
    }
  }

  lemma RowsNone(m: seq<Cell>, spc: Cell)
    ensures Rows(m, spc, |m|, Given, [])
  {}

  /** The reference lays the message out. */
  lemma {:induction false} LaysOut(m: seq<Cell>, spc: Cell, from: nat, before: Break, start: seq<Cell>, rest: seq<Cell>)
    requires Resumes(m, spc, from, before, start, rest) && (|start| == 0 || |start| == 2)
    ensures Rows(m, spc, from, before, Wrapped(start, rest, spc))
    decreases |rest|
  {
    hide Margin, FirstNewline, LastBlank, NewlineAt, BlankAt, Resumes, Row, NextStart, NextFrom, MidLine, Wrapped, Own, Rows, RowOf, CutBreak;
    var w := start + rest;
    var e := FirstNewline(w, |start|);
    if e < COL && e < |w| {
      var p := Piece(w[..e + 1], Given);
      AtNewline(start, rest, spc, e);
      RowAtNewline(m, spc, from, before, start, rest, e, p.line);
      LaysOut(m, spc, from + |Own(p, before)|, Given, [], w[e + 1..]);
      RowsCons(m, spc, from, before, p, Wrapped([], w[e + 1..], spc));
    } else if |w| < COL {
      AtEnd(start, rest, spc);
      if w == [] {
        ResumesNothing(m, spc, from, before, start, rest);
      } else {
        RowAtEnd(m, spc, from, before, start, rest);
        RowsNone(m, spc);
        RowsCons(m, spc, from, before, Piece(w, Given), []);
        assert [Piece(w, Given)] + [] == [Piece(w, Given)];
      }
    } else {
      var n := LastBlank(w, |start|, COL);
      var p := Piece(w[..CutAt(n)] + [NEWLINE], CutBreak(n));
      AtCut(start, rest, spc, n);
      RowAtCut(m, spc, from, before, start, rest, n, w);
      LaysOut(m, spc, from + |Own(p, before)|, CutBreak(n), NextStart(w, n, spc), w[NextFrom(n)..]);
      RowsCons(m, spc, from, before, p, Wrapped(NextStart(w, n, spc), w[NextFrom(n)..], spc));
    }
  }

  lemma ResumesNothing(m: seq<Cell>, spc: Cell, from: nat, before: Break, start: seq<Cell>, rest: seq<Cell>)
    requires Resumes(m, spc, from, before, start, rest) && start + rest == []
    ensures Rows(m, spc, from, before, [])
  {
    assert start == [] && rest == [] && from == |m|;
  }

  /** Said of the lines alone. */
  lemma RowsAre(m: seq<Cell>, spc: Cell, ps: seq<Piece>, ls: seq<Line>)
    requires Rows(m, spc, 0, Given, ps) && |ls| == |ps| && forall i :: 0 <= i < |ls| ==> ls[i].line == ps[i].line
    ensures LaidOut(m, spc, Places(0, Given, ps), ls)
  {
    hide Row, Places;
    var at := Places(0, Given, ps);
    forall i | 0 <= i < |ls| ensures Row(m, spc, at[i], at[i + 1], i > 0 && |ls[i - 1].line| == 77, ls[i].line) {
      if i > 0 {
        assert RowOf(m, spc, at[i - 1], at[i], if i == 1 then Given else ps[i - 2].after, ps[i - 1]);
        SameMargin(m, spc, at[i], at[i + 1], ps[i - 1].after.Hard? || ps[i - 1].after.SoftAtEdge?, |ls[i - 1].line| == 77, ls[i].line);
      }
    }
  }

  lemma SameMargin(m: seq<Cell>, spc: Cell, from: nat, to: nat, full: bool, filled: bool, line: seq<Cell>)
    requires Row(m, spc, from, to, full, line) && (MidLine(m, from) ==> full == filled)
    ensures Row(m, spc, from, to, filled, line)
  {
    assert Margin(m, spc, from, full) == Margin(m, spc, from, filled);
    hide Margin;
  }

  /** A line starts with the same cells wherever it ends, so it ends in one place. */
  lemma OneEnd(m: seq<Cell>, spc: Cell, from: nat, full: bool, to: nat, line: seq<Cell>, to': nat, line': seq<Cell>)
    requires Row(m, spc, from, to, full, line) && Row(m, spc, from, to', full, line')
    ensures to == to' && line == line'
  {
    hide Margin;
    var room := from + 77 - |Margin(m, spc, from, full)|;
    assert !MidLine(m, to) ==> to <= room;
    assert !MidLine(m, to') ==> to' <= room;
    NoLaterEnd(m, spc, from, full, to, line, to', line');
    NoLaterEnd(m, spc, from, full, to', line', to, line);
  }

  lemma NoLaterEnd(m: seq<Cell>, spc: Cell, from: nat, full: bool, to: nat, line: seq<Cell>, to': nat, line': seq<Cell>)
    requires Row(m, spc, from, to, full, line) && Row(m, spc, from, to', full, line')
    ensures to >= to'
  {
    hide Margin;
    var room := from + 77 - |Margin(m, spc, from, full)|;
    assert MidLine(m, to) && !BlankAt(m, to) ==> to == room - 1;
    assert !MidLine(m, to) ==> to == |m| || NewlineAt(m, to - 1);
  }

  /** There is one way only to lay a message out. */
  lemma {:induction false} OneLayout(m: seq<Cell>, spc: Cell, at: seq<nat>, ls: seq<Line>, at': seq<nat>, ls': seq<Line>, n: nat)
    requires LaidOut(m, spc, at, ls) && LaidOut(m, spc, at', ls') && n <= |ls| && n <= |ls'|
    ensures forall i :: 0 <= i < n ==> ls[i].line == ls'[i].line
    ensures at[n] == at'[n]
  {
    hide Row;
    if n > 0 {
      OneLayout(m, spc, at, ls, at', ls', n - 1);
      OneEnd(m, spc, at[n - 1], n > 1 && |ls[n - 2].line| == 77, at[n], ls[n - 1].line, at'[n], ls'[n - 1].line);
    }
  }

  lemma OnlyLayout(m: seq<Cell>, spc: Cell, at: seq<nat>, ls: seq<Line>, at': seq<nat>, ls': seq<Line>)
    requires LaidOut(m, spc, at, ls) && LaidOut(m, spc, at', ls')
    ensures |ls| == |ls'| && forall i :: 0 <= i < |ls| ==> ls[i].line == ls'[i].line
  {
    var n := if |ls| <= |ls'| then |ls| else |ls'|;
    OneLayout(m, spc, at, ls, at', ls', n);
    StartsInside(m, spc, at, ls);
    StartsInside(m, spc, at', ls');
  }

  lemma StartsInside(m: seq<Cell>, spc: Cell, at: seq<nat>, ls: seq<Line>)
    requires LaidOut(m, spc, at, ls)
    ensures forall i :: 0 <= i < |ls| ==> at[i] < |m|
  {
    hide Margin;
    forall i | 0 <= i < |ls| ensures at[i] < |m| {
      assert Row(m, spc, at[i], at[i + 1], i > 0 && |ls[i - 1].line| == 77, ls[i].line);
    }
  }

  lemma LinesAt(ps: seq<Piece>)
    ensures |Lines(ps)| == |ps| && forall i :: 0 <= i < |ps| ==> Lines(ps)[i] == ps[i].line
  {}

  lemma TextsAt(ls: seq<Line>)
    ensures |Texts(ls)| == |ls| && forall i :: 0 <= i < |ls| ==> Texts(ls)[i] == ls[i].line
  {}

  lemma {:induction false} WellCutAt(before: Break, ps: seq<Piece>, i: nat)
    requires WellCut(before, ps) && i < |ps|
    ensures Tidy(ps[i].line) && (i < |ps| - 1 ==> Ends(ps[i].line))
    ensures !(if i == 0 then before else ps[i - 1].after).Given? ==> GoesOn(ps[i].line)
    decreases i
  {
    if i > 0 { WellCutAt(ps[0].after, ps[1..], i - 1); } else { BlankOrNewline(NEWLINE); }
  }

  /** What the reference promises, for the lines that were made. */
  lemma OutputIs(str: seq<Cell>, spc: Cell, output: seq<Line>)
    requires 0 !in str && IsBlank(spc) && Texts(output) == Lines(Wrapped([], Message(str, spc), spc))
    ensures Ink(Flat(Texts(output))) == Ink(str)
    ensures var ps := Wrapped([], Message(str, spc), spc);
      && |output| == |ps| && (forall i :: 0 <= i < |ps| ==> output[i].line == ps[i].line && Tidy(output[i].line))
      && (forall i :: 0 <= i < |ps| - 1 ==> Ends(output[i].line))
      && (forall i :: 0 < i < |ps| && !ps[i - 1].after.Given? ==> GoesOn(output[i].line))
  {
    hide Wrapped, Lines, Texts, Ink, WellCut, IsBlank, IsNewline, Tidy, Ends, GoesOn, Flat;
    BlankOrNewline(spc);
    var all := Message(str, spc);
    var ps := Wrapped([], all, spc);
    assert [] + all == all;
    InkKept([], all, spc);
    InkOfNone();
    InkOne(spc);
    CutsWell([], all, spc, Given);
    LinesAt(ps);
    TextsAt(output);
    forall i | 0 <= i < |ps|
      ensures Tidy(ps[i].line) && (i < |ps| - 1 ==> Ends(ps[i].line))
      ensures i > 0 && !ps[i - 1].after.Given? ==> GoesOn(ps[i].line)
    {
      WellCutAt(Given, ps, i);
    }
  }

  /** A message shorter than a line is that line. */
  lemma ShortIsOne(str: seq<Cell>, spc: Cell, output: seq<Line>)
    requires 0 < |str| < 77 && 0 !in str && forall k :: 0 <= k < |str| ==> str[k] % 0x100 != 0x0A
    requires Texts(output) == Lines(Wrapped([], str, spc)) && Honest(output)
    ensures output == [Line(str, |str|)]
  {
    hide Wrapped;
    assert [] + str == str;
    AtEnd([], str, spc);
    LinesAt(Wrapped([], str, spc));
    TextsAt(output);
  }

  /** The lines, said of the message alone. */
  lemma OutputLaidOut(str: seq<Cell>, spc: Cell, output: seq<Line>)
    requires Texts(output) == Lines(Wrapped([], str, spc))
    ensures LaidOut(str, spc, Places(0, Given, Wrapped([], str, spc)), output)
  {
    hide Wrapped, Places, Rows, LaidOut, Texts, Lines;
    LaysOut(str, spc, 0, Given, [], str);
    LinesAt(Wrapped([], str, spc));
    TextsAt(output);
    RowsAre(str, spc, Wrapped([], str, spc), output);
  }

  predicate Unbroken(m: seq<Cell>, from: nat, to: nat) {
    from <= to <= |m| && forall k :: from <= k < to ==> m[k] % 0x100 != 0x0A
  }

  lemma RowsWide(m: seq<Cell>, spc: Cell, at: seq<nat>, ls: seq<Line>)
    requires LaidOut(m, spc, at, ls)
    ensures forall i :: 0 <= i < |ls| && 0 < at[i + 1] < |m| && m[at[i + 1] - 1] % 0x100 != 0x0A ==>
              Unbroken(m, at[i], at[i] + 75)
  {
    hide Margin, Row, Unbroken;
    forall i | 0 <= i < |ls| && 0 < at[i + 1] < |m| && m[at[i + 1] - 1] % 0x100 != 0x0A
      ensures Unbroken(m, at[i], at[i] + 75)
    {
      RowWide(m, spc, at[i], at[i + 1], i > 0 && |ls[i - 1].line| == 77, ls[i].line);
    }
  }

  lemma RowWide(m: seq<Cell>, spc: Cell, from: nat, to: nat, full: bool, line: seq<Cell>)
    requires Row(m, spc, from, to, full, line) && MidLine(m, to)
    ensures Unbroken(m, from, from + 75)
  {
    hide Margin, MidLine;
    forall k | from <= k < from + 75 ensures m[k] % 0x100 != 0x0A { assert !NewlineAt(m, k); }
  }

  /** `SplitLine`, of a message that needs no more lines than its table has.  An empty
      message is shown as a blank and a short one as it is.  In general the lines are made
      of the message piece by piece, from at[i] to at[i + 1] each, and there is one way only
      to do that; a line of the message goes on in the next line only if that many cells
      without a newline were there.  Each line records its own length; all have the ink of
      the message, 77 cells at most with newlines at the end alone, and two blanks where a
      line of the message goes on. */
  method SplitLine(str0: seq<Cell>, spc: Cell) returns (output: seq<Line>, ghost at: seq<nat>)
    requires 0 !in str0 && IsBlank(spc) && |Wrapped([], Message(str0, spc), spc)| <= MAXLINES
    ensures str0 == [] ==> output == [Line([spc], 1)]
    ensures 0 < |str0| < 77 && (forall k :: 0 <= k < |str0| ==> str0[k] % 0x100 != 0x0A) ==> output == [Line(str0, |str0|)]
    ensures str0 != [] ==> LaidOut(str0, spc, at, output)
    ensures str0 != [] ==>
      forall i :: 0 <= i < |output| && 0 < at[i + 1] < |str0| && str0[at[i + 1] - 1] % 0x100 != 0x0A ==>
        Unbroken(str0, at[i], at[i] + 75)
    ensures |output| <= MAXLINES && Honest(output)
    ensures Texts(output) == Lines(Wrapped([], Message(str0, spc), spc))
    ensures Ink(Flat(Texts(output))) == Ink(str0)
    ensures forall i :: 0 <= i < |output| ==> Tidy(output[i].line)
    ensures forall i :: 0 <= i < |output| - 1 ==> Ends(output[i].line)
    ensures var ps := Wrapped([], Message(str0, spc), spc);
      && |output| == |ps|
      && forall i :: 0 < i < |ps| && !ps[i - 1].after.Given? ==> GoesOn(output[i].line)
  {
    BlankOrNewline(spc);
    assert IsBlank(spc) ==> spc % 0x100 != 0x0A;
    hide Wrapped, Lines, Texts, Ink, IsBlank, IsNewline, Tidy, Ends, GoesOn, Flat, Places, LaidOut, Honest;
    output := SplitBuffered(Message(str0, spc), spc);
    OutputIs(str0, spc, output);
    at := Places(0, Given, Wrapped([], Message(str0, spc), spc));
    if str0 == [] {
      ShortIsOne([spc], spc, output);
    } else {
      OutputLaidOut(str0, spc, output);
      RowsWide(str0, spc, at, output);
      if |str0| < 77 && forall k :: 0 <= k < |str0| ==> str0[k] % 0x100 != 0x0A {
        ShortIsOne(str0, spc, output);
      }
    }
  }

  /** The loop over the one buffer. */
  method SplitBuffered(str: seq<Cell>, spc: Cell) returns (output: seq<Line>)
    requires 0 !in str && IsBlank(spc)
    ensures Texts(output) == Lines(Wrapped([], str, spc))
    ensures Honest(output)
  {
    hide Ready, CharText, Wrapped, Lines, CutRest;
    BlankOrNewline(spc);
    ghost var goal := Lines(Wrapped([], str, spc));
    Start(str, spc);
    var buffer := new Cell[LARGBUF](_ => 0);
    output := [];
    var pos, wbreak: nat := 0, 0;
    ghost var s, buf := State([], str, 0), [];
    var p := 0;
    assert str[p..] == str;
    while p < |str|
      invariant 0 <= p <= |str| && pos == |buf| < COL
      invariant Tracks(s, buffer, output, buf, wbreak, str[p..], spc, goal)
      decreases |str| - p, pos, wbreak
    {
      var ch := str[p];
      assert str[p..][1..] == str[p + 1..];
      if IsNewline(ch) {
        output, s := TakeNewline(buffer, ch, pos, wbreak, spc, output, buf, str[p..], s, goal);
        buf, pos, wbreak := [], 0, 0;
        p := p + 1;
        continue;
      }
      wbreak, s := TakeCell(buffer, ch, pos, wbreak, spc, output, buf, str[p..], s, goal);
      buf, pos := buf + [ch], pos + 1;
      if pos >= COL {
        var again;
        output, pos, again, s := TakeCut(buffer, wbreak, spc, output, buf, str[p + 1..], s, goal);
        buf, wbreak := CutRest(buf, wbreak, spc), 0;
        if again {
          assert [ch] + str[p + 1..] == str[p..];
          p := p - 1;                         // read the last cell again
        }
      }
      p := p + 1;
    }
    output := TakeEnd(buffer, pos, wbreak, spc, output, buf, s, goal);
  }
}
