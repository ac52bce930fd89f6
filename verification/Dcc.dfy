/** The DCC file transfer of src/dcc.c: a sender that puts out one block for every
    read of acknowledgements, a receiver that acknowledges every read of data, and
    the two directions of the connection between them. */
module Dcc {
  import opened CString

  datatype Outcome = Open | Completed | Premature

  /** Each end has a BLOCK_SIZE of its own and reads at most one byte less at a time.
      An acknowledgement is an `unsigned long`, whose size may differ too: the receiver
      writes `rack` bytes and the sender wants `sack`.  The sender's block must fit its
      buffer of 2049 bytes. */
  datatype Setup = Setup(sbs: nat, rbs: nat, sack: nat, rack: nat) {
    predicate Valid() { 2 <= sbs <= 2050 && 2 <= rbs && (sack == 4 || sack == 8) && (rack == 4 || rack == 8) }
  }

  /** Where a transfer stands.  `data` and the `acks` bytes of acknowledgements are in
      flight; `sending` ends when the sender closes its socket, `lost` tells that the
      connection broke. */
  datatype State = State(xfer: nat, sending: bool, lost: bool, data: seq<Byte>, acks: nat, file: seq<Byte>, recv: nat, outcome: Outcome)

  datatype Step =
    | Send(n: nat)      // the sender reads n >= 1 bytes of acknowledgements at once
    | Get(n: nat)       // the receiver reads the next n >= 1 bytes
    | Eof               // the receiver finds the connection closed and drained
    | Break(n: nat)     // the connection breaks; n bytes still arrive

  function Min(a: int, b: int): int { if a < b then a else b }

  /** The next block of the file, from where the last one ended. */
  function Block(src: seq<Byte>, at: nat, c: Setup): seq<Byte>
    requires at <= |src| && c.Valid()
  {
    src[at..Min(at + c.sbs - 1, |src|)]
  }

  function Start(src: seq<Byte>, c: Setup): State
    requires c.Valid()
  {
    var b := Block(src, 0, c);
    State(|b|, true, false, b, 0, [], 0, Open)
  }

  predicate Enabled(s: State, t: Step, c: Setup) {
    match t
    case Send(n) => s.sending && !s.lost && 1 <= n <= s.acks && n < c.sbs
    case Get(n) => s.outcome == Open && 1 <= n <= |s.data| && n < c.rbs
    case Eof => s.outcome == Open && s.data == [] && (!s.sending || s.lost)
    case Break(n) => !s.lost && n <= |s.data|
  }

  /** A sender that reads less than one acknowledgement gives up. */
  function Apply(src: seq<Byte>, s: State, t: Step, c: Setup): State
    requires c.Valid() && Enabled(s, t, c) && s.xfer <= |src|
  {
    match t
    case Send(n) =>
      if n < c.sack then s.(acks := s.acks - n, sending := false)
      else
        var b := Block(src, s.xfer, c);
        s.(acks := s.acks - n, data := s.data + b, xfer := s.xfer + |b|, sending := s.xfer + |b| != |src|)
    case Get(n) => s.(recv := s.recv + n, file := s.file + s.data[..n], data := s.data[n..], acks := s.acks + c.rack)
    case Eof => s.(outcome := if s.recv == |src| then Completed else Premature)
    case Break(n) => s.(lost := true, data := s.data[..n])
  }

  /** What every step keeps. */
  predicate Inv(src: seq<Byte>, s: State) {
    && s.xfer <= |src| && s.recv == |s.file|
    && s.file + s.data <= src[..s.xfer]
    && (!s.lost ==> s.file + s.data == src[..s.xfer])
    && (!s.lost && s.sending ==> s.data != [] || s.acks > 0)
    && (s.outcome == Completed ==> s.file == src)
    && (s.outcome == Premature ==> s.recv != |src|)
    && (s.outcome != Open ==> s.data == [] && (!s.sending || s.lost))
  }

  lemma StartInv(src: seq<Byte>, c: Setup)
    requires c.Valid() && src != []
    ensures Inv(src, Start(src, c))
  {
    assert [] + Block(src, 0, c) == src[..|Block(src, 0, c)|];
  }

  lemma SendInv(src: seq<Byte>, s: State, n: nat, c: Setup)
    requires c.Valid() && Inv(src, s) && Enabled(s, Send(n), c)
    ensures Inv(src, Apply(src, s, Send(n), c))
  {
    var b := Block(src, s.xfer, c);
    assert src[..s.xfer] + b == src[..s.xfer + |b|];
    assert s.file + (s.data + b) == (s.file + s.data) + b;
  }

  lemma GetInv(src: seq<Byte>, s: State, n: nat, c: Setup)
    requires c.Valid() && Inv(src, s) && Enabled(s, Get(n), c)
    ensures Inv(src, Apply(src, s, Get(n), c))
  {
    assert (s.file + s.data[..n]) + s.data[n..] == s.file + s.data;
    assert s.outcome == Open;
  }

  lemma EofInv(src: seq<Byte>, s: State, c: Setup)
    requires c.Valid() && Inv(src, s) && Enabled(s, Eof, c)
    ensures Inv(src, Apply(src, s, Eof, c))
  {
    assert s.file + [] == s.file;
    assert |s.file| == |src| ==> s.file == src[..|src|] == src;
  }

  lemma BreakInv(src: seq<Byte>, s: State, n: nat, c: Setup)
    requires c.Valid() && Inv(src, s) && Enabled(s, Break(n), c)
    ensures Inv(src, Apply(src, s, Break(n), c))
  {
    assert (s.file + s.data[..n]) + s.data[n..] == s.file + s.data;
  }

  lemma StepInv(src: seq<Byte>, s: State, t: Step, c: Setup)
    requires c.Valid() && Inv(src, s) && Enabled(s, t, c)
    ensures Inv(src, Apply(src, s, t, c))
  {
    hide Inv, Apply;
    match t
    case Send(n) => SendInv(src, s, n, c);
    case Get(n) => GetInv(src, s, n, c);
    case Eof => EofInv(src, s, c);
    case Break(n) => BreakInv(src, s, n, c);
  }

  /** Every step uses something up: a byte of data is worth more than the largest
      acknowledgement. */
  function Rank(src: seq<Byte>, s: State): int {
    9 * (|src| - s.xfer + |s.data|) + s.acks
    + (if s.lost then 0 else 1) + (if s.outcome == Open then 1 else 0)
  }

  lemma StepRank(src: seq<Byte>, s: State, t: Step, c: Setup)
    requires c.Valid() && Inv(src, s) && Enabled(s, t, c)
    ensures 0 <= Rank(src, Apply(src, s, t, c)) < Rank(src, s)
  {
    StepInv(src, s, t, c);
  }

  // ------------------------------------------------------------- whole runs

  /** The steps can be taken in this order from s. */
  predicate Possible(src: seq<Byte>, s: State, steps: seq<Step>, c: Setup)
    requires c.Valid()
    decreases |steps|
  {
    steps == [] ||
    (s.xfer <= |src| && Enabled(s, steps[0], c) && Possible(src, Apply(src, s, steps[0], c), steps[1..], c))
  }

  function Run(src: seq<Byte>, s: State, steps: seq<Step>, c: Setup): State
    requires c.Valid() && Possible(src, s, steps, c)
    decreases |steps|
  {
    if steps == [] then s else Run(src, Apply(src, s, steps[0], c), steps[1..], c)
  }

  /** Safety over every run, and a bound on its length. */
  lemma {:induction false} RunInv(src: seq<Byte>, s: State, steps: seq<Step>, c: Setup)
    requires c.Valid() && Inv(src, s) && Possible(src, s, steps, c)
    ensures Inv(src, Run(src, s, steps, c))
    ensures 0 <= Rank(src, Run(src, s, steps, c)) <= Rank(src, s) - |steps|
    decreases |steps|
  {
    hide Inv, Enabled, Apply, Rank;
    if steps == [] {
      RankNat(src, s);
    } else {
      InvXfer(src, s);
      StepInv(src, s, steps[0], c);
      StepRank(src, s, steps[0], c);
      RunInv(src, Apply(src, s, steps[0], c), steps[1..], c);
    }
  }

  lemma RankNat(src: seq<Byte>, s: State)
    requires Inv(src, s)
    ensures 0 <= Rank(src, s)
  {}

  lemma InvXfer(src: seq<Byte>, s: State)
    requires Inv(src, s)
    ensures s.xfer <= |src|
  {}

  lemma EveryRunEnds(src: seq<Byte>, steps: seq<Step>, c: Setup)
    requires c.Valid() && src != [] && Possible(src, Start(src, c), steps, c)
    ensures |steps| <= 9 * |src| + 2
  {
    StartInv(src, c);
    RunInv(src, Start(src, c), steps, c);
  }

  /** The receiver reports completion only for an identical file. */
  lemma CompletedIsIdentical(src: seq<Byte>, steps: seq<Step>, c: Setup)
    requires c.Valid() && src != [] && Possible(src, Start(src, c), steps, c)
    ensures Run(src, Start(src, c), steps, c).outcome == Completed ==>
              Run(src, Start(src, c), steps, c).file == src
  {
    StartInv(src, c);
    RunInv(src, Start(src, c), steps, c);
  }

  // ------------------------------------- when an unbroken connection is enough

  /** Neither end has anything left to do. */
  ghost predicate Stuck(s: State, c: Setup) {
    forall t: Step :: !t.Break? ==> !Enabled(s, t, c)
  }

  /** The connection does not break, and acknowledgements arrive whole: a read takes
      all that has arrived, or as much as a read can hold. */
  predicate Orderly(s: State, t: Step, c: Setup)
    requires c.Valid()
  {
    match t
    case Send(n) => n == c.sbs - 1 || (s.acks - n) % c.rack == 0
    case Get(_) => true
    case Eof => true
    case Break(_) => false
  }

  predicate OrderlyRun(src: seq<Byte>, s: State, steps: seq<Step>, c: Setup)
    requires c.Valid() && Possible(src, s, steps, c)
    decreases |steps|
  {
    steps == [] || (Orderly(s, steps[0], c) && OrderlyRun(src, Apply(src, s, steps[0], c), steps[1..], c))
  }

  /** A whole transfer: from the first block until nothing more can happen. */
  ghost predicate Settled(src: seq<Byte>, steps: seq<Step>, c: Setup)
    requires c.Valid()
  {
    && Possible(src, Start(src, c), steps, c)
    && OrderlyRun(src, Start(src, c), steps, c)
    && Stuck(Run(src, Start(src, c), steps, c), c)
  }

  /** The receiver has the file and says so, and the sender has closed. */
  predicate Delivered(src: seq<Byte>, s: State) {
    s.outcome == Completed && s.file == src && !s.sending
  }

  /** The remainder of a difference, from those of its terms. */
  function Minus(a: nat, b: nat, k: nat): (r: nat)
    requires a < k && b < k
    ensures r < k
  {
    if a >= b then a - b else a + k - b
  }

  /** What is left of acknowledgements of k bytes when one read after another has been
      full, of d bytes and whole acknowledgements. */
  function Residue(k: nat, d: nat, full: nat): (r: nat)
    requires d < k
    ensures r < k
  {
    if full == 0 then 0 else Minus(Residue(k, d, full - 1), d, k)
  }

  function Left(c: Setup, full: nat): (r: nat)
    requires c.Valid()
    ensures r < c.rack
  {
    Residue(c.rack, (c.sbs - 1) % c.rack, full)
  }

  /** What has been sent by then: the first block and one more for every full read. */
  function Blocks(c: Setup, full: nat): (n: nat)
    requires c.Valid()
    ensures n >= c.sbs - 1 && (full >= 1 ==> n >= 2 * (c.sbs - 1))
  {
    if full == 0 then c.sbs - 1 else Blocks(c, full - 1) + (c.sbs - 1)
  }

  lemma {:induction false} MoreBlocks(c: Setup, i: nat, j: nat)
    requires c.Valid() && i <= j
    ensures Blocks(c, i) <= Blocks(c, j)
    decreases j
  {
    if i < j { MoreBlocks(c, i, j - 1); }
  }

  /** The least that the next read may then find. */
  function Least(c: Setup, full: nat): nat
    requires c.Valid()
  {
    Min(if Left(c, full) == 0 then c.rack else Left(c, full), c.sbs - 1)
  }

  /** What the settings must satisfy for a file of this size: as long as there is more
      to send, no number of full reads leaves the sender less than it wants. */
  predicate Suits(c: Setup, size: nat)
    requires c.Valid()
  {
    forall j :: 0 <= j < c.rack && Blocks(c, j) < size ==> Least(c, j) >= c.sack
  }

  /** What then holds all along: everything is sent, or the last `full` reads were
      full and that many blocks have gone out besides the first. */
  predicate Smooth(src: seq<Byte>, s: State, c: Setup, full: nat)
    requires c.Valid()
  {
    && !s.lost
    && (!s.sending ==> s.xfer == |src|)
    && (s.xfer == |src| ||
        (full < c.rack && s.acks % c.rack == Left(c, full) && Blocks(c, full) <= s.xfer))
  }

  lemma Remainder(a: nat, n: nat, k: nat)
    requires (k == 4 || k == 8) && n <= a
    ensures (a - n) % k == Minus(a % k, n % k, k)
  {
    if k == 4 { Remainder4(a, n); } else { Remainder8(a, n); }
  }

  lemma Remainder4(a: nat, n: nat)
    requires n <= a
    ensures (a - n) % 4 == Minus(a % 4, n % 4, 4)
  {
    assert a - n == 4 * (a / 4 - n / 4) + (a % 4 - n % 4);
  }

  lemma Remainder8(a: nat, n: nat)
    requires n <= a
    ensures (a - n) % 8 == Minus(a % 8, n % 8, 8)
  {
    assert a - n == 8 * (a / 8 - n / 8) + (a % 8 - n % 8);
  }

  /** A read of all that has arrived leaves whole acknowledgements. */
  lemma Aligned(a: nat, n: nat, k: nat)
    requires (k == 4 || k == 8) && 1 <= n <= a && (a - n) % k == 0
    ensures n >= if a % k == 0 then k else a % k
  {
    Remainder(a, n, k);
    AtLeastWhole(n, k);
  }

  lemma AtLeastWhole(n: nat, k: nat)
    requires k == 4 || k == 8
    ensures n >= n % k && (n % k == 0 && n >= 1 ==> n >= k)
  {}

  lemma OneMoreWhole(a: nat, k: nat)
    requires k == 4 || k == 8
    ensures (a + k) % k == a % k
  {}

  lemma LeftNext(c: Setup, j: nat)
    requires c.Valid()
    ensures Left(c, j + 1) == Minus(Left(c, j), (c.sbs - 1) % c.rack, c.rack)
    ensures Left(c, 0) == 0
    ensures Blocks(c, j + 1) == Blocks(c, j) + (c.sbs - 1) && Blocks(c, 0) == c.sbs - 1
  {}

  /** After as many full reads as an acknowledgement has bytes nothing is left. */
  lemma LeftAround(c: Setup)
    requires c.Valid()
    ensures Left(c, c.rack) == 0
  {
    var d := (c.sbs - 1) % c.rack;
    if c.rack == 4 { Around4(d); } else { Around8(d); }
  }

  lemma Twice(k: nat, d: nat, j: nat)
    requires d < k
    ensures Residue(k, d, j + 2) == Minus(Minus(Residue(k, d, j), d, k), d, k)
  {
    assert Residue(k, d, j + 2) == Minus(Residue(k, d, j + 1), d, k);
  }

  lemma Around4(d: nat)
    requires d < 4
    ensures Residue(4, d, 4) == 0
  {
    Twice(4, d, 0);
    Twice(4, d, 2);
  }

  lemma Double(x: nat, d: nat)
    requires x < 8 && d < 8
    ensures Minus(Minus(x, d, 8), d, 8) == Minus(x, if d < 4 then 2 * d else 2 * d - 8, 8)
  {}

  lemma Start8(d: nat)
    requires d < 8
    ensures Residue(8, d, 0) == 0
  {}

  /** Two full reads leave what one of twice the size would. */
  lemma FourTimes(d: nat, e: nat, j: nat)
    requires d < 8 && e == if d < 4 then 2 * d else 2 * d - 8
    ensures Residue(8, d, j + 4) == Minus(Residue(8, d, j), if e < 4 then 2 * e else 2 * e - 8, 8)
  {
    hide Residue, Minus;
    Twice(8, d, j);
    Twice(8, d, j + 2);
    Double(Residue(8, d, j), d);
    Double(Residue(8, d, j + 2), d);
    Double(Residue(8, d, j), e);
  }

  lemma Around8(d: nat)
    requires d < 8
    ensures Residue(8, d, 8) == 0
  {
    hide Residue, Minus;
    var e := if d < 4 then 2 * d else 2 * d - 8;
    Start8(d);
    FourTimes(d, e, 0);
    FourTimes(d, e, 4);
    HalfTwice(if e < 4 then 2 * e else 2 * e - 8);
  }

  lemma HalfTwice(f: nat)
    requires f == 0 || f == 4
    ensures Minus(Minus(0, f, 8), f, 8) == 0
  {}

  /** A read while there is more to send. */
  lemma SendSmooth(src: seq<Byte>, s: State, n: nat, c: Setup, j: nat) returns (k: nat)
    requires c.Valid() && Suits(c, |src|) && s.xfer < |src|
    requires Enabled(s, Send(n), c) && Orderly(s, Send(n), c) && Smooth(src, s, c, j)
    ensures Smooth(src, Apply(src, s, Send(n), c), c, k)
  {
    hide Left, Blocks;
    var m := c.sbs - 1;
    assert Least(c, j) >= c.sack;
    if n != m { Aligned(s.acks, n, c.rack); }
    Remainder(s.acks, n, c.rack);
    LeftNext(c, j);
    LeftNext(c, 0);
    LeftAround(c);
    k := if n != m || j + 1 == c.rack then 0 else j + 1;
    MoreBlocks(c, k, j + 1);
  }

  lemma StepSmooth(src: seq<Byte>, s: State, t: Step, c: Setup, j: nat) returns (k: nat)
    requires c.Valid() && Suits(c, |src|) && s.xfer <= |src|
    requires Enabled(s, t, c) && Orderly(s, t, c) && Smooth(src, s, c, j)
    ensures Smooth(src, Apply(src, s, t, c), c, k)
  {
    hide Left, Suits, Blocks;
    k := j;
    if s.xfer != |src| {
      match t
      case Send(n) => k := SendSmooth(src, s, n, c, j);
      case Get(n) => OneMoreWhole(s.acks, c.rack);
      case Eof =>
    }
  }

  lemma {:induction false} RunSmooth(src: seq<Byte>, s: State, steps: seq<Step>, c: Setup, j: nat) returns (k: nat)
    requires c.Valid() && Suits(c, |src|) && Possible(src, s, steps, c) && OrderlyRun(src, s, steps, c) && Smooth(src, s, c, j)
    ensures Smooth(src, Run(src, s, steps, c), c, k)
    decreases |steps|
  {
    hide Enabled, Apply, Orderly, Smooth, Suits;
    k := j;
    if steps != [] {
      k := StepSmooth(src, s, steps[0], c, j);
      k := RunSmooth(src, Apply(src, s, steps[0], c), steps[1..], c, k);
    }
  }

  /** A transfer that has nothing left to do and has kept sending is over. */
  lemma SettledIsDelivered(src: seq<Byte>, s: State, c: Setup)
    requires c.Valid() && Inv(src, s) && Stuck(s, c) && !s.lost && (!s.sending ==> s.xfer == |src|)
    ensures Delivered(src, s)
  {
    assert s.file + [] == s.file && src[..|src|] == src;
    assert !Enabled(s, Get(1), c) && !Enabled(s, Send(1), c) && !Enabled(s, Eof, c);
  }

  /** A transfer whose settings suit the file ends with the file delivered. */
  lemma RunsToCompletion(src: seq<Byte>, steps: seq<Step>, c: Setup)
    requires c.Valid() && src != [] && Suits(c, |src|) && Settled(src, steps, c)
    ensures Delivered(src, Run(src, Start(src, c), steps, c))
  {
    StartInv(src, c);
    RunInv(src, Start(src, c), steps, c);
    var k := RunSmooth(src, Start(src, c), steps, c, 0);
    SettledIsDelivered(src, Run(src, Start(src, c), steps, c), c);
  }

  /** With acknowledgements of one size: the file fits the first block, or a block has
      room for one and is a multiple of it or holds half of the file. */
  lemma SuitsAlike(c: Setup, size: nat)
    requires c.Valid() && c.sack == c.rack
    ensures Suits(c, size) <==>
              size <= c.sbs - 1 || (c.rack <= c.sbs - 1 && (size <= 2 * (c.sbs - 1) || (c.sbs - 1) % c.rack == 0))
  {
    hide Left, Blocks;
    LeftNext(c, 0);
    LeftNext(c, 1);
    assert 1 < c.rack && Least(c, 1) >= 0 && Least(c, 0) >= 0;
    if (c.sbs - 1) % c.rack == 0 {
      forall j | 0 <= j < c.rack ensures Left(c, j) == 0 { NeverLeft(c, j); }
    }
    PartLeft(c);
  }

  lemma PartLeft(c: Setup)
    requires c.Valid()
    ensures (c.sbs - 1) % c.rack != 0 ==> 1 <= Left(c, 1) < c.rack
  {
    hide Left;
    LeftNext(c, 0);
  }

  lemma {:induction false} NeverLeft(c: Setup, j: nat)
    requires c.Valid() && (c.sbs - 1) % c.rack == 0
    ensures Left(c, j) == 0
  {
    if j > 0 { NeverLeft(c, j - 1); }
  }

  /** A sender that wants larger ones than it gets can only send the first block. */
  lemma SuitsNone(c: Setup, size: nat)
    requires c.Valid() && c.sack > c.rack
    ensures Suits(c, size) <==> size <= c.sbs - 1
  {
    hide Left, Blocks;
    LeftNext(c, 0);
    assert Least(c, 0) < c.sack;
  }

  // -------------------------------------------------- and when it is not

  /** A sender that has given up sends no more, so the file stays incomplete. */
  predicate GivenUp(src: seq<Byte>, s: State) {
    !s.sending && s.xfer < |src|
  }

  lemma {:induction false} GivenUpForGood(src: seq<Byte>, s: State, steps: seq<Step>, c: Setup)
    requires c.Valid() && Possible(src, s, steps, c) && GivenUp(src, s)
    ensures GivenUp(src, Run(src, s, steps, c))
    decreases |steps|
  {
    if steps != [] {
      GivenUpForGood(src, Apply(src, s, steps[0], c), steps[1..], c);
    }
  }

  lemma NotDelivered(src: seq<Byte>, s: State)
    requires Inv(src, s) && GivenUp(src, s)
    ensures !Delivered(src, s)
  {}

  /** Steps of two runs, one after the other. */
  lemma {:induction false} RunThen(src: seq<Byte>, s: State, a: seq<Step>, b: seq<Step>, c: Setup)
    requires c.Valid() && Possible(src, s, a, c) && Possible(src, Run(src, s, a, c), b, c)
    requires OrderlyRun(src, s, a, c) && OrderlyRun(src, Run(src, s, a, c), b, c)
    ensures Possible(src, s, a + b, c) && OrderlyRun(src, s, a + b, c)
    ensures Run(src, s, a + b, c) == Run(src, Run(src, s, a, c), b, c)
    decreases |a|
  {
    hide Enabled, Apply, Orderly;
    if a == [] {
      assert a + b == b;
    } else {
      assert (a + b)[1..] == a[1..] + b;
      RunThen(src, Apply(src, s, a[0], c), a[1..], b, c);
    }
  }

  lemma OneStep(src: seq<Byte>, s: State, t: Step, c: Setup)
    requires c.Valid() && s.xfer <= |src| && Enabled(s, t, c) && Orderly(s, t, c)
    ensures Possible(src, s, [t], c) && OrderlyRun(src, s, [t], c)
    ensures Run(src, s, [t], c) == Apply(src, s, t, c)
  {
    assert Possible(src, Apply(src, s, t, c), [t][1..], c);
  }

  /** As long as something can happen, something orderly can. */
  lemma Progress(src: seq<Byte>, s: State, c: Setup) returns (t: Step)
    requires c.Valid() && !Stuck(s, c)
    ensures Enabled(s, t, c) && Orderly(s, t, c)
  {
    var u: Step :| !u.Break? && Enabled(s, u, c);
    t := u;
    if u.Send? {
      t := Send(Min(s.acks, c.sbs - 1));
    }
  }

  /** Every run goes on to one that cannot. */
  lemma {:induction false} GoesOn(src: seq<Byte>, s: State, c: Setup) returns (steps: seq<Step>)
    requires c.Valid() && Inv(src, s)
    ensures Possible(src, s, steps, c) && OrderlyRun(src, s, steps, c) && Stuck(Run(src, s, steps, c), c)
    decreases Rank(src, s)
  {
    hide Inv, Enabled, Apply, Orderly, Rank, Stuck;
    if Stuck(s, c) {
      steps := [];
    } else {
      var t := Progress(src, s, c);
      InvXfer(src, s);
      RankNat(src, s);
      StepInv(src, s, t, c);
      StepRank(src, s, t, c);
      var rest := GoesOn(src, Apply(src, s, t, c), c);
      OneStep(src, s, t, c);
      RunThen(src, s, [t], rest, c);
      steps := [t] + rest;
    }
  }

  /** A receiver that reads byte by byte acknowledges each one. */
  function Sips(k: nat): seq<Step> { seq(k, i => Get(1)) }

  lemma {:induction false} Sipping(src: seq<Byte>, s: State, k: nat, c: Setup)
    requires c.Valid() && s.xfer <= |src| && s.outcome == Open && k <= |s.data|
    ensures Possible(src, s, Sips(k), c) && OrderlyRun(src, s, Sips(k), c)
    ensures var r := Run(src, s, Sips(k), c);
            r.xfer == s.xfer && r.sending == s.sending && r.lost == s.lost && r.acks == s.acks + c.rack * k
    decreases k
  {
    if k > 0 {
      assert Sips(k)[1..] == Sips(k - 1) && Sips(k)[0] == Get(1);
      Sipping(src, Apply(src, s, Get(1), c), k - 1, c);
      assert c.rack * k == c.rack + c.rack * (k - 1);
    }
  }

  /** One full read after another. */
  function Gulps(j: nat, c: Setup): seq<Step>
    requires c.Valid()
  {
    seq(j, i => Send(c.sbs - 1))
  }

  lemma {:induction false} Gulping(src: seq<Byte>, s: State, i: nat, j: nat, c: Setup)
    requires c.Valid() && i <= j < c.rack && c.sack <= c.sbs - 1 && Blocks(c, j) < |src|
    requires s.sending && !s.lost && s.xfer == Blocks(c, i) && s.acks % c.rack == Left(c, i)
    requires s.acks >= Need(c, j - i)
    ensures Possible(src, s, Gulps(j - i, c), c) && OrderlyRun(src, s, Gulps(j - i, c), c)
    ensures var r := Run(src, s, Gulps(j - i, c), c);
            r.sending && !r.lost && r.xfer == Blocks(c, j) && r.acks >= c.sbs - 1 && r.acks % c.rack == Left(c, j)
    decreases j - i
  {
    hide Left, Enabled, Apply, Orderly, Blocks;
    NeedNext(c, j - i);
    if i < j {
      assert Gulps(j - i, c)[1..] == Gulps(j - i - 1, c) && Gulps(j - i, c)[0] == Send(c.sbs - 1);
      MoreBlocks(c, i + 1, j);
      Gulp(src, s, i, c);
      Gulping(src, Apply(src, s, Send(c.sbs - 1), c), i + 1, j, c);
    }
  }

  /** The acknowledgements for so many full reads and one more. */
  function Need(c: Setup, n: nat): nat
    requires c.Valid()
  {
    if n == 0 then c.sbs - 1 else Need(c, n - 1) + (c.sbs - 1)
  }

  lemma NeedNext(c: Setup, n: nat)
    requires c.Valid()
    ensures Need(c, n) >= c.sbs - 1 && (n > 0 ==> Need(c, n) == Need(c, n - 1) + (c.sbs - 1) && Need(c, n - 1) >= 0)
  {}

  lemma {:induction false} NeedBound(c: Setup, n: nat)
    requires c.Valid()
    ensures Need(c, n) == (n + 1) * (c.sbs - 1)
  {
    if n > 0 {
      NeedBound(c, n - 1);
      assert (n + 1) * (c.sbs - 1) == n * (c.sbs - 1) + (c.sbs - 1);
    }
  }

  lemma Gulp(src: seq<Byte>, s: State, i: nat, c: Setup)
    requires c.Valid() && c.sack <= c.sbs - 1 && Blocks(c, i + 1) < |src|
    requires s.sending && !s.lost && s.xfer == Blocks(c, i) && s.acks % c.rack == Left(c, i) && s.acks >= c.sbs - 1
    ensures Enabled(s, Send(c.sbs - 1), c) && Orderly(s, Send(c.sbs - 1), c)
    ensures s.xfer <= |src|
    ensures var r := Apply(src, s, Send(c.sbs - 1), c);
            && r.sending && !r.lost && r.xfer == Blocks(c, i + 1) && r.acks == s.acks - (c.sbs - 1)
            && r.acks % c.rack == Left(c, i + 1)
  {
    hide Left, Blocks;
    LeftNext(c, i);
    Remainder(s.acks, c.sbs - 1, c.rack);
  }

  /** The smallest number of full reads after which too little may be left. */
  lemma {:induction false} FirstShort(c: Setup, size: nat, j: nat) returns (i: nat)
    requires c.Valid() && Blocks(c, j) < size && Least(c, j) < c.sack
    ensures i <= j && Blocks(c, i) < size && Least(c, i) < c.sack
    ensures forall k :: 0 <= k < i ==> Least(c, k) >= c.sack
    decreases j
  {
    hide Least, Blocks;
    if k :| 0 <= k < j && Least(c, k) < c.sack {
      MoreBlocks(c, k, j);
      i := FirstShort(c, size, k);
    } else {
      i := j;
    }
  }

  /** A read of the least that may be left. */
  lemma LastSip(src: seq<Byte>, s: State, c: Setup, j: nat)
    requires c.Valid() && s.xfer < |src| && s.sending && !s.lost
    requires s.acks >= c.sbs - 1 && s.acks % c.rack == Left(c, j) && Least(c, j) < c.sack
    ensures Enabled(s, Send(Least(c, j)), c) && Orderly(s, Send(Least(c, j)), c)
    ensures GivenUp(src, Apply(src, s, Send(Least(c, j)), c))
  {
    hide Left;
    if Least(c, j) != c.sbs - 1 { LessWhole(s.acks, Least(c, j), c.rack); }
  }

  lemma LessWhole(a: nat, n: nat, k: nat)
    requires (k == 4 || k == 8) && n <= a && n == if a % k == 0 then k else a % k
    ensures (a - n) % k == 0
  {
    Remainder(a, n, k);
  }

  /** A run to the point where j full reads have left a part. */
  lemma Poured(src: seq<Byte>, c: Setup, j: nat) returns (steps: seq<Step>)
    requires c.Valid() && j < c.rack && Blocks(c, j) < |src| && (j > 0 ==> c.sack <= c.sbs - 1)
    ensures Possible(src, Start(src, c), steps, c) && OrderlyRun(src, Start(src, c), steps, c)
    ensures var s := Run(src, Start(src, c), steps, c);
            s.xfer == Blocks(c, j) && s.sending && !s.lost && s.acks >= c.sbs - 1 && s.acks % c.rack == Left(c, j)
  {
    hide Possible, OrderlyRun, Run, Apply, Enabled, Orderly, Sips, Gulps, Left, Blocks, Need;
    var s0, m := Start(src, c), c.sbs - 1;
    LeftNext(c, 0);
    MoreBlocks(c, 0, j);
    steps := Sips(m);
    Sipping(src, s0, m, c);
    EnoughAcks(c, j);
    Whole(m, c.rack);
    if j > 0 {
      Gulping(src, Run(src, s0, steps, c), 0, j, c);
      RunThen(src, s0, steps, Gulps(j, c), c);
      steps := steps + Gulps(j, c);
    }
  }

  /** When the settings do not suit, the sender may come to read a part. */
  lemma Spilling(src: seq<Byte>, c: Setup) returns (steps: seq<Step>)
    requires c.Valid() && src != [] && !Suits(c, |src|)
    ensures Possible(src, Start(src, c), steps, c) && OrderlyRun(src, Start(src, c), steps, c)
    ensures GivenUp(src, Run(src, Start(src, c), steps, c))
  {
    var j0: nat :| j0 < c.rack && Blocks(c, j0) < |src| && Least(c, j0) < c.sack;
    hide Possible, OrderlyRun, Run, Apply, Enabled, Orderly, Left, Least, Suits, Blocks, GivenUp, Start;
    var j := FirstShort(c, |src|, j0);
    FirstFull(c, j);
    steps := Poured(src, c, j);
    var s := Run(src, Start(src, c), steps, c);
    LastSip(src, s, c, j);
    OneStep(src, s, Send(Least(c, j)), c);
    RunThen(src, Start(src, c), steps, [Send(Least(c, j))], c);
    steps := steps + [Send(Least(c, j))];
  }

  lemma FirstFull(c: Setup, j: nat)
    requires c.Valid() && forall k :: 0 <= k < j ==> Least(c, k) >= c.sack
    ensures j > 0 ==> c.sack <= c.sbs - 1
  {
    if j > 0 { assert Least(c, 0) >= c.sack; }
  }

  lemma EnoughAcks(c: Setup, j: nat)
    requires c.Valid() && j < c.rack
    ensures c.rack * (c.sbs - 1) >= Need(c, j) >= c.sbs - 1
  {
    NeedBound(c, j);
    NeedNext(c, j);
    assert (c.rack - j - 1) * (c.sbs - 1) >= 0;
  }

  lemma Whole(m: nat, k: nat)
    requires k == 4 || k == 8
    ensures (k * m) % k == 0
  {}

  /** Over an unbroken connection every transfer of a file ends with the file
      delivered if, and only if, the sender's block size suits its length. */
  lemma DeliveredExactly(src: seq<Byte>, c: Setup)
    requires c.Valid() && src != []
    ensures (forall steps :: Settled(src, steps, c) ==> Delivered(src, Run(src, Start(src, c), steps, c)))
            <==> Suits(c, |src|)
  {
    if Suits(c, |src|) {
      forall steps | Settled(src, steps, c)
        ensures Delivered(src, Run(src, Start(src, c), steps, c))
      {
        RunsToCompletion(src, steps, c);
      }
    } else {
      var a := Spilling(src, c);
      var s := Run(src, Start(src, c), a, c);
      StartInv(src, c);
      RunInv(src, Start(src, c), a, c);
      var b := GoesOn(src, s, c);
      RunThen(src, Start(src, c), a, b, c);
      RunInv(src, s, b, c);
      GivenUpForGood(src, s, b, c);
      NotDelivered(src, Run(src, s, b, c));
      assert Settled(src, a + b, c);
    }
  }

  // ------------------------------------------- acknowledgements in parts too

  predicate Unbroken(steps: seq<Step>) {
    forall i :: 0 <= i < |steps| ==> !steps[i].Break?
  }

  /** A whole transfer over an unbroken connection, whatever parts of acknowledgements
      the sender reads. */
  ghost predicate SettledAnyhow(src: seq<Byte>, steps: seq<Step>, c: Setup)
    requires c.Valid()
  {
    Possible(src, Start(src, c), steps, c) && Unbroken(steps) && Stuck(Run(src, Start(src, c), steps, c), c)
  }

  /** A sender that has nothing more to send keeps it that way. */
  lemma {:induction false} AllSent(src: seq<Byte>, s: State, steps: seq<Step>, c: Setup)
    requires c.Valid() && Possible(src, s, steps, c) && Unbroken(steps) && s.xfer == |src| && !s.lost
    ensures var r := Run(src, s, steps, c); r.xfer == |src| && !r.lost
    decreases |steps|
  {
    if steps != [] {
      assert !steps[0].Break?;
      AllSent(src, Apply(src, s, steps[0], c), steps[1..], c);
    }
  }

  lemma {:induction false} OrderlyIsUnbroken(src: seq<Byte>, s: State, steps: seq<Step>, c: Setup)
    requires c.Valid() && Possible(src, s, steps, c) && OrderlyRun(src, s, steps, c)
    ensures Unbroken(steps)
    decreases |steps|
  {
    hide Enabled, Apply;
    if steps != [] {
      OrderlyIsUnbroken(src, Apply(src, s, steps[0], c), steps[1..], c);
      assert forall i :: 0 < i < |steps| ==> steps[i] == steps[1..][i - 1];
    }
  }

  /** A single byte read is enough to make the sender give up. */
  lemma Nibble(src: seq<Byte>, c: Setup) returns (steps: seq<Step>)
    requires c.Valid() && |src| > c.sbs - 1
    ensures Possible(src, Start(src, c), steps, c) && Unbroken(steps)
    ensures GivenUp(src, Run(src, Start(src, c), steps, c))
  {
    var s := Start(src, c);
    var t := Apply(src, s, Get(1), c);
    steps := [Get(1), Send(1)];
    assert steps[1..] == [Send(1)] && [Send(1)][1..] == [];
    assert Enabled(s, Get(1), c) && Enabled(t, Send(1), c);
    assert Possible(src, Apply(src, t, Send(1), c), [], c);
    assert Possible(src, t, [Send(1)], c);
  }

  lemma {:induction false} RunOn(src: seq<Byte>, s: State, a: seq<Step>, b: seq<Step>, c: Setup)
    requires c.Valid() && Possible(src, s, a, c) && Possible(src, Run(src, s, a, c), b, c)
    ensures Possible(src, s, a + b, c) && Run(src, s, a + b, c) == Run(src, Run(src, s, a, c), b, c)
    decreases |a|
  {
    hide Enabled, Apply;
    if a == [] {
      assert a + b == b;
    } else {
      assert (a + b)[1..] == a[1..] + b;
      RunOn(src, Apply(src, s, a[0], c), a[1..], b, c);
    }
  }

  /** If acknowledgements may arrive in parts, every transfer over an unbroken
      connection delivers the file if, and only if, it fits the first block. */
  lemma DeliveredAnyhow(src: seq<Byte>, c: Setup)
    requires c.Valid() && src != []
    ensures (forall steps :: SettledAnyhow(src, steps, c) ==> Delivered(src, Run(src, Start(src, c), steps, c)))
            <==> |src| <= c.sbs - 1
  {
    StartInv(src, c);
    if |src| <= c.sbs - 1 {
      forall steps | SettledAnyhow(src, steps, c)
        ensures Delivered(src, Run(src, Start(src, c), steps, c))
      {
        RunInv(src, Start(src, c), steps, c);
        AllSent(src, Start(src, c), steps, c);
        SettledIsDelivered(src, Run(src, Start(src, c), steps, c), c);
      }
    } else {
      var a := Nibble(src, c);
      var s := Run(src, Start(src, c), a, c);
      RunInv(src, Start(src, c), a, c);
      var b := GoesOn(src, s, c);
      OrderlyIsUnbroken(src, s, b, c);
      RunOn(src, Start(src, c), a, b, c);
      RunInv(src, s, b, c);
      GivenUpForGood(src, s, b, c);
      NotDelivered(src, Run(src, s, b, c));
      assert SettledAnyhow(src, a + b, c);
    }
  }

  // ------------------------------------------------------------ the program

  /** The variables of both ends and what is between them. */
  class Transfer {
    const src: seq<Byte>             // the file sent, whose length is the offered size
    const c: Setup
    var pos: nat                     // of the sender's file descriptor
    var xfer: nat
    var sending: bool
    var data: seq<Byte>
    var acks: nat
    var file: seq<Byte>
    var recv: nat
    var outcome: Outcome
    ghost var lost: bool

    ghost function Now(): State
      reads this
    {
      State(xfer, sending, lost, data, acks, file, recv, outcome)
    }

    ghost predicate Valid()
      reads this
    {
      c.Valid() && src != [] && pos == xfer && Inv(src, Now())
    }

    /** `AnswerDCCRequest_`: the first block goes out unasked. */
    constructor (src: seq<Byte>, c: Setup)
      requires c.Valid() && src != []
      ensures this.src == src && this.c == c
      ensures Valid() && Now() == Start(src, c)
    {
      this.src, this.c := src, c;
      var n := Min(c.sbs - 1, |src|);
      data := src[..n];
      pos, xfer := n, n;
      sending, acks, file, recv, outcome, lost := true, 0, [], 0, Open, false;
      new;
      StartInv(src, c);
    }

    /** `SendFilePackettoSocket`, woken by n bytes of acknowledgements. */
    method SendFilePackettoSocket(n: nat)
      requires Valid() && Enabled(Now(), Send(n), c)
      modifies this
      ensures Valid() && Now() == Apply(src, old(Now()), Send(n), c)
      ensures acks == old(acks) - n
      ensures n < c.sack ==> !sending && xfer == old(xfer) && data == old(data)
      ensures n >= c.sack ==>
        && old(xfer) <= xfer <= |src| && data == old(data) + src[old(xfer)..xfer]
        && (xfer == |src| || xfer == old(xfer) + c.sbs - 1) && xfer <= old(xfer) + c.sbs - 1
        && (sending <==> xfer != |src|)
    {
      StepInv(src, Now(), Send(n), c);
      acks := acks - n;
      if n < c.sack {
        sending := false;
        return;
      }
      var k := Min(c.sbs - 1, |src| - pos);
      data := data + src[pos..pos + k];
      pos := pos + k;
      xfer := xfer + k;
      if xfer == |src| {
        sending := false;
      }
    }

    /** `GetFilePacketfromSocket`, for a read of n bytes. */
    method GetFilePacketfromSocket(n: nat)
      requires Valid() && Enabled(Now(), Get(n), c)
      modifies this
      ensures Valid() && Now() == Apply(src, old(Now()), Get(n), c)
      ensures file == old(file) + old(data)[..n] && data == old(data)[n..]
      ensures recv == |file| && acks == old(acks) + c.rack
    {
      StepInv(src, Now(), Get(n), c);
      var msg := data[..n];
      data := data[n..];
      recv := recv + n;
      file := file + msg;
      acks := acks + c.rack;
    }

    /** `EOFDCCConnection`, at the receiver. */
    method EOFDCCConnection()
      requires Valid() && Enabled(Now(), Eof, c)
      modifies this
      ensures Valid() && Now() == Apply(src, old(Now()), Eof, c)
      ensures outcome == Completed <==> recv == |src|
      ensures outcome == Premature <==> recv != |src|
    {
      StepInv(src, Now(), Eof, c);
      if |src| == recv {
        outcome := Completed;
      } else {
        outcome := Premature;
      }
    }
  }

  /** `InitDCCSEND` with the check of `CheckFileBeforeSending`: an empty file is not
      offered.  The offer is answered at once. */
  method InitDCCSEND(src: seq<Byte>, c: Setup) returns (t: Transfer?)
    requires c.Valid()
    ensures t == null <==> src == []
    ensures t != null ==> fresh(t) && t.src == src && t.c == c && t.Valid() && t.Now() == Start(src, c)
  {
    t := null;
    if |src| == 0 {
      return;
    }
    t := new Transfer(src, c);
  }
}
