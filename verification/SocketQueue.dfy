/** The reading half of src/socketio.c: chunks of bytes go onto a queue, lines
    come off it. */
module SocketQueue {
  import opened CString

  const LF: Byte := 0x0A
  const CR: Byte := 0x0D

  predicate IsEnd(c: Byte) { c == LF || c == CR }

  // ------------------------------------------------------- the reference

  /** The first line end of s, or |s|. */
  function FirstEnd(s: Text): (e: nat)
    ensures e <= |s| && (e < |s| ==> IsEnd(s[e])) && forall k :: 0 <= k < e ==> !IsEnd(s[k])
  {
    if s == [] || IsEnd(s[0]) then 0 else 1 + FirstEnd(s[1..])
  }

  /** The complete lines of a stream that are not empty. */
  function Lines(s: Text): seq<Text> {
    var e := FirstEnd(s);
    if e == |s| then []
    else One(s[..e]) + Lines(s[e + 1..])
  }

  function One(l: Text): seq<Text> { if l == [] then [] else [l] }

  /** Lines, each with the line ends behind it. */
  function Sent(ls: seq<Text>, ends: seq<Text>): Text
    requires |ls| == |ends|
  {
    if ls == [] then [] else ls[0] + ends[0] + Sent(ls[1..], ends[1..])
  }

  /** Whatever line ends the lines have, one or more each, the lines are read, and what
      comes behind the last one is the tail. */
  lemma {:induction false} LinesSent(ls: seq<Text>, ends: seq<Text>, t: Text)
    requires |ls| == |ends| && NoEnd(t)
    requires forall i :: 0 <= i < |ls| ==> NoEnd(ls[i]) && ls[i] != [] && AllEnd(ends[i]) && ends[i] != []
    ensures Lines(Sent(ls, ends) + t) == ls && Tail(Sent(ls, ends) + t) == t
    decreases |ls|
  {
    hide Lines, Tail, One, NoEnd, AllEnd;
    if ls == [] {
      NoEndNoLine(t);
      assert [] + t == t;
    } else {
      var l, e, more := ls[0], ends[0], Sent(ls[1..], ends[1..]) + t;
      assert Sent(ls, ends) + t == (l + e) + more;
      LinesSent(ls[1..], ends[1..], t);
      OneSent(l, e);
      LinesSplit(l + e, more);
      assert [l] + ls[1..] == ls;
    }
  }

  predicate AllEnd(s: Text) {
    match s case _ => forall k :: 0 <= k < |s| ==> IsEnd(s[k])
  }

  lemma OneSent(l: Text, e: Text)
    requires NoEnd(l) && l != [] && AllEnd(e) && e != []
    ensures Ended(l + e) && Lines(l + e) == [l]
  {
    hide Lines, Tail;
    var s := l + e;
    FirstEndIs(s, |l|);
    LinesStep(s, |l|);
    assert s[..|l|] == l && s[|l| + 1..] == e[1..];
    EndsNoLine(e[1..]);
    assert [l] + [] == [l];
  }

  lemma {:induction false} EndsNoLine(e: Text)
    requires AllEnd(e)
    ensures Lines(e) == []
  {
    hide Lines;
    if e == [] {
      NoLines();
    } else {
      FirstEndIs(e, 0);
      LinesStep(e, 0);
      assert e[..0] == [];
      EndsNoLine(e[1..]);
    }
  }

  /** What follows the last line end. */
  function Tail(s: Text): Text {
    var e := FirstEnd(s);
    if e == |s| then s else Tail(s[e + 1..])
  }

  predicate Ended(s: Text) {
    s == [] || IsEnd(s[|s| - 1])
  }

  lemma LinesStep(s: Text, e: nat)
    requires FirstEnd(s) == e < |s|
    ensures Lines(s) == One(s[..e]) + Lines(s[e + 1..]) && Tail(s) == Tail(s[e + 1..])
  {
    hide FirstEnd;
  }

  lemma {:induction false} LinesSplit(a: Text, b: Text)
    requires Ended(a)
    ensures Lines(a + b) == Lines(a) + Lines(b) && Tail(a + b) == Tail(b)
    decreases |a|
  {
    hide Lines, Tail, One;
    if a == [] {
      assert a + b == b;
      NoLines();
      assert [] + Lines(b) == Lines(b);
    } else {
      var e := FirstEnd(a);
      assert e < |a|;
      SameFirstEnd(a, b);
      LinesStep(a, e);
      LinesStep(a + b, e);
      assert (a + b)[e + 1..] == a[e + 1..] + b && (a + b)[..e] == a[..e];
      LinesSplit(a[e + 1..], b);
      assert One(a[..e]) + (Lines(a[e + 1..]) + Lines(b)) == One(a[..e]) + Lines(a[e + 1..]) + Lines(b);
    }
  }

  lemma NoLines()
    ensures Lines([]) == [] && Tail([]) == []
  {}

  lemma SameFirstEnd(a: Text, b: Text)
    requires FirstEnd(a) < |a|
    ensures FirstEnd(a + b) == FirstEnd(a)
  {
    var e := FirstEnd(a);
    FirstEndIs(a + b, e);
  }

  lemma {:induction false} FirstEndIs(s: Text, e: nat)
    requires e <= |s| && (e < |s| ==> IsEnd(s[e])) && forall k :: 0 <= k < e ==> !IsEnd(s[k])
    ensures FirstEnd(s) == e
  {}

  /** A carriage return with a line feed somewhere behind it has one directly behind it. */
  predicate Orderly(s: Text) {
    match s case _ => forall i, j :: 0 <= i && i + 1 < j < |s| && s[i] == CR && s[j] == LF ==> s[i + 1] == LF
  }

  /** What `RemovefromSocketQueue` cuts a message at: its first line feed, or
      its first carriage return if it has no line feed. */
  function First(m: Text, c: Byte): (i: nat)                 // `strchr`
    ensures i <= |m| && (i < |m| ==> m[i] == c) && forall k :: 0 <= k < i ==> m[k] != c
  {
    if m == [] || m[0] == c then 0 else 1 + First(m[1..], c)
  }

  function NewLine(m: Text): (nl: nat)
    ensures nl <= |m| && (nl < |m| <==> LF in m || CR in m)
    ensures LF in m ==> nl < |m| && m[nl] == LF && LF !in m[..nl]
    ensures LF !in m && CR in m ==> nl < |m| && m[nl] == CR && CR !in m[..nl]
  {
    if First(m, LF) < |m| then First(m, LF) else First(m, CR)
  }

  function Stripped(l: Text): Text {
    if l != [] && l[|l| - 1] == CR then l[..|l| - 1] else l
  }

  /** One cut takes one line, and nothing else, out of the stream. */
  lemma CutLine(m: Text)
    requires Orderly(m) && NewLine(m) < |m|
    ensures var nl := NewLine(m);
            Ended(m[..nl + 1]) && Lines(m[..nl + 1]) == One(Stripped(m[..nl]))
  {
    hide Lines, First;
    var nl: int := NewLine(m);
    var l, t := m[..nl], m[..nl + 1];
    forall k: int | 0 <= k < nl - 1 ensures m[k] != CR && m[k] != LF {
      assert m[k + 1] != LF;
    }
    NoLines();
    if l != [] && l[|l| - 1] == CR {
      JustEnd(m[nl]);
      assert t[nl..] == [m[nl]] && t[..nl - 1] == l[..nl - 1];
      FirstEndIs(t, nl - 1);
      LinesStep(t, nl - 1);
    } else {
      assert t[nl + 1..] == [] && t[..nl] == l;
      FirstEndIs(t, nl);
      LinesStep(t, nl);
    }
  }

  lemma JustEnd(c: Byte)
    requires IsEnd(c)
    ensures Lines([c]) == []
  {
    hide Lines;
    NoLines();
    LinesStep([c], 0);
    assert [c][1..] == [] && [c][..0] == [];
  }

  function Concat(ms: seq<Text>): Text {
    if ms == [] then [] else ms[0] + Concat(ms[1..])
  }

  lemma {:induction false} ConcatAdd(ms: seq<Text>, m: Text)
    ensures Concat(ms + [m]) == Concat(ms) + m
  {
    if ms == [] {
      assert [m][1..] == [];
    } else {
      ConcatAdd(ms[1..], m);
      assert (ms + [m])[1..] == ms[1..] + [m];
    }
  }

  lemma ConcatMerge(ms: seq<Text>)
    requires |ms| >= 2
    ensures Concat(ms) == Concat([ms[0] + ms[1]] + ms[2..])
  {
    assert ([ms[0] + ms[1]] + ms[2..])[1..] == ms[2..];
    assert ms[1..][1..] == ms[2..];
  }

  /** The account of a socket: all that came in is what has been cut off, then
      what is queued; and what has been cut off has been delivered. */
  ghost predicate Accounted(received: Text, consumed: Text, delivered: seq<Text>, pending: Text) {
    match pending
    case _ => received == consumed + pending && Ended(consumed) && delivered == Lines(consumed) && Orderly(received)
  }

  /** Cutting a line off the first message keeps the account. */
  lemma AccountCut(received: Text, consumed: Text, delivered: seq<Text>, m: Text, more: Text)
    requires Accounted(received, consumed, delivered, m + more) && NewLine(m) < |m|
    ensures var nl := NewLine(m);
            Accounted(received, consumed + m[..nl + 1], delivered + One(Stripped(m[..nl])), m[nl + 1..] + more)
  {
    hide Lines, NewLine, Stripped, One, Orderly;
    var nl := NewLine(m);
    OrderlyPart(received, consumed, m, more);
    CutLine(m);
    LinesSplit(consumed, m[..nl + 1]);
    Regroup(consumed, m, nl + 1, more);
  }

  lemma Regroup(a: Text, m: Text, k: nat, b: Text)
    requires k <= |m|
    ensures a + (m + b) == (a + m[..k]) + (m[k..] + b)
  {}

  lemma OrderlyPart(received: Text, consumed: Text, m: Text, more: Text)
    requires received == consumed + (m + more) && Orderly(received)
    ensures Orderly(m)
  {
    var n := |consumed|;
    forall i, j | 0 <= i && i + 1 < j < |m| && m[i] == CR && m[j] == LF ensures m[i + 1] == LF {
      assert received[n + i] == m[i] && received[n + j] == m[j] && received[n + i + 1] == m[i + 1];
    }
  }

  /** What has been delivered is a prefix of the stream's lines, and what is
      queued holds exactly the rest. */
  lemma NothingLost(received: Text, consumed: Text, delivered: seq<Text>, pending: Text)
    requires Accounted(received, consumed, delivered, pending)
    ensures Lines(received) == delivered + Lines(pending) && Tail(received) == Tail(pending)
  {
    LinesSplit(consumed, pending);
  }

  // --------------------------------------------- the queue, by its messages

  /** One call of `RemovefromSocketQueue`: the messages it leaves, whether it asks
      to be called again, and the line it puts in `buf_q`. */
  datatype Turn = Turn(ms: seq<Text>, comeback: bool, line: Text)

  function Next(ms: seq<Text>): Turn {
    if ms == [] then Turn(ms, false, [])
    else
      var m, nl := ms[0], NewLine(ms[0]);
      if nl < |m| then
        var rest := m[nl + 1..];
        if rest != [] then Turn([rest] + ms[1..], true, Stripped(m[..nl]))
        else Turn(ms[1..], false, Stripped(m[..nl]))
      else if |ms| == 1 then Turn(ms, false, [])
      else Turn([m + ms[1]] + ms[2..], First(m + ms[1], LF) < |m + ms[1]|, [])
  }

  function Rest(m: Text): seq<Text> { if m == [] then [] else [m] }

  lemma NextCases(ms: seq<Text>)
    ensures ms == [] ==> Next(ms) == Turn(ms, false, [])
    ensures ms != [] ==> var m, nl := ms[0], NewLine(ms[0]);
      if nl < |m| then Next(ms) == Turn(Rest(m[nl + 1..]) + ms[1..], m[nl + 1..] != [], Stripped(m[..nl]))
      else if |ms| == 1 then Next(ms) == Turn(ms, false, [])
      else Next(ms) == Turn([m + ms[1]] + ms[2..], First(m + ms[1], LF) < |m + ms[1]|, [])
  {
    hide NewLine, Stripped, First;
    if ms != [] { assert [] + ms[1..] == ms[1..]; }
  }

  /** A message is cut at its first line feed, or at its first carriage return if it has
      no line feed; one carriage return at the end of the line goes too.  Without either
      it is joined with the next message, if there is one. */
  ghost predicate Turned(ms: seq<Text>, nl: nat, t: Turn) {
    match t
    case Turn(left, comeback, line) =>
      if ms == [] then left == [] && !comeback && line == []
      else
        var m := ms[0];
        && nl <= |m| && (nl < |m| <==> 0x0A in m || 0x0D in m)
        && (0x0A in m ==> nl < |m| && m[nl] == 0x0A && 0x0A !in m[..nl])
        && (0x0A !in m && 0x0D in m ==> nl < |m| && m[nl] == 0x0D && 0x0D !in m[..nl])
        && (nl < |m| ==>
              && line == (if nl > 0 && m[nl - 1] == 0x0D then m[..nl - 1] else m[..nl])
              && comeback == (nl + 1 < |m|) && left == (if comeback then [m[nl + 1..]] else []) + ms[1..])
        && (nl == |m| && |ms| == 1 ==> left == ms && !comeback && line == [])
        && (nl == |m| && |ms| > 1 ==> left == [m + ms[1]] + ms[2..] && comeback == (0x0A in ms[1]) && line == [])
  }

  lemma NextTurned(ms: seq<Text>)
    ensures Turned(ms, if ms == [] then 0 else NewLine(ms[0]), Next(ms))
  {
    hide First, NewLine;
    NextCases(ms);
    if ms != [] {
      var nl := NewLine(ms[0]);
      if nl == |ms[0]| && |ms| > 1 {
        NoCutNoEnd(ms[0]);
        FeedIn(ms[0], ms[1]);
      }
    }
  }

  lemma DrainedStep(ms: seq<Text>)
    ensures var t := Next(ms);
            Drained(ms) == if t.comeback then (Drained(t.ms).0, One(t.line) + Drained(t.ms).1) else (t.ms, One(t.line))
  {
    hide Next;
    NextShrinks(ms);
  }

  lemma OneMore(was: seq<Text>, line: Text, now: seq<Text>, more: seq<Text>)
    requires now == if line != [] then was + [line] else was
    ensures now == was + One(line) && was + (One(line) + more) == now + more
  {}

  lemma ConcatFirst(m: Text, ms: seq<Text>)
    ensures Concat([m] + ms) == m + Concat(ms)
  {
    assert ([m] + ms)[1..] == ms;
  }

  lemma NextShrinks(ms: seq<Text>)
    ensures Next(ms).comeback ==> |Concat(Next(ms).ms)| + |Next(ms).ms| < |Concat(ms)| + |ms|
  {
    hide Concat, First, NewLine, Stripped;
    if ms != [] {
      assert ms == [ms[0]] + ms[1..];
      ConcatFirst(ms[0], ms[1..]);
      if NewLine(ms[0]) < |ms[0]| {
        ConcatFirst(ms[0][NewLine(ms[0]) + 1..], ms[1..]);
      } else if |ms| > 1 {
        ConcatMerge(ms);
      }
    }
  }

  /** The whole drain loop: the messages left and the lines delivered. */
  function Drained(ms: seq<Text>): (seq<Text>, seq<Text>)
    decreases |Concat(ms)| + |ms|
  {
    NextShrinks(ms);
    var t := Next(ms);
    if t.comeback then
      var d := Drained(t.ms);
      (d.0, One(t.line) + d.1)
    else (t.ms, One(t.line))
  }

  lemma NextAccount(received: Text, consumed: Text, delivered: seq<Text>, ms: seq<Text>) returns (eaten: Text)
    requires Accounted(received, consumed, delivered, Concat(ms))
    ensures Accounted(received, eaten, delivered + One(Next(ms).line), Concat(Next(ms).ms))
  {
    hide Concat, First, NewLine, Stripped, Accounted;
    eaten := consumed;
    assert delivered + [] == delivered;
    if ms != [] {
      assert ms == [ms[0]] + ms[1..];
      ConcatFirst(ms[0], ms[1..]);
      if NewLine(ms[0]) < |ms[0]| {
        var rest := ms[0][NewLine(ms[0]) + 1..];
        AccountCut(received, consumed, delivered, ms[0], Concat(ms[1..]));
        eaten := consumed + ms[0][..NewLine(ms[0]) + 1];
        ConcatFirst(rest, ms[1..]);
        assert rest == [] ==> rest + Concat(ms[1..]) == Concat(ms[1..]);
      } else if |ms| > 1 {
        ConcatMerge(ms);
      }
    }
  }

  lemma {:induction false} DrainedAccount(received: Text, consumed: Text, delivered: seq<Text>, ms: seq<Text>) returns (eaten: Text)
    requires Accounted(received, consumed, delivered, Concat(ms))
    ensures Accounted(received, eaten, delivered + Drained(ms).1, Concat(Drained(ms).0))
    decreases |Concat(ms)| + |ms|
  {
    hide Concat, Accounted, Next;
    NextShrinks(ms);
    var t := Next(ms);
    eaten := NextAccount(received, consumed, delivered, ms);
    if t.comeback {
      eaten := DrainedAccount(received, eaten, delivered + One(t.line), t.ms);
      assert delivered + One(t.line) + Drained(t.ms).1 == delivered + (One(t.line) + Drained(t.ms).1);
    }
  }

  /** Draining leaves at most one message. */
  lemma {:induction false} AtRest(ms: seq<Text>)
    requires |ms| <= 2
    ensures |Drained(ms).0| <= 1
    decreases |Concat(ms)| + |ms|
  {
    NextShrinks(ms);
    if Next(ms).comeback { AtRest(Next(ms).ms); }
  }

  predicate NoEnd(s: Text) {
    match s case _ => forall k :: 0 <= k < |s| ==> !IsEnd(s[k])
  }

  lemma NoCutNoEnd(m: Text)
    requires NewLine(m) == |m|
    ensures NoEnd(m)
  {}

  /** A message that is drained alone leaves no line end behind, even if it ends between
      the two bytes of one. */
  lemma {:induction false} LeavesNoLine(m: Text)
    ensures forall k :: 0 <= k < |Drained([m]).0| ==> NoEnd(Drained([m]).0[k])
    decreases |m|
  {
    hide First, Stripped, NoEnd, NewLine;
    NextShrinks([m]);
    var nl := NewLine(m);
    if nl == |m| {
      NoCutNoEnd(m);
    } else {
      var rest := m[nl + 1..];
      assert [m][1..] == [] && [rest] + [] == [rest];
      if rest != [] { LeavesNoLine(rest); }
    }
  }

  /** Of a message that is drained alone all lines are delivered, and the rest stays. */
  lemma {:induction false} DrainedAlone(m: Text)
    requires m != [] && Orderly(m)
    ensures Drained([m]) == (if Tail(m) == [] then [] else [Tail(m)], Lines(m))
    decreases |m|
  {
    hide First, Stripped, NoEnd, NewLine, Lines, Tail, Drained, Orderly;
    NextCases([m]);
    DrainedStep([m]);
    var nl := NewLine(m);
    if nl == |m| {
      NoCutNoEnd(m);
      NoEndNoLine(m);
    } else {
      var rest := m[nl + 1..];
      assert [m][1..] == [] && Rest(rest) + [] == Rest(rest);
      CutOff(m);
      if rest == [] { NoLines(); Nothing(One(Stripped(m[..nl]))); } else { DrainedAlone(rest); }
    }
  }

  /** A message without its first line. */
  lemma CutOff(m: Text)
    requires Orderly(m) && NewLine(m) < |m|
    ensures var nl := NewLine(m); var rest := m[nl + 1..];
            Lines(m) == One(Stripped(m[..nl])) + Lines(rest) && Tail(m) == Tail(rest) && Orderly(rest)
  {
    hide NewLine, Stripped, Lines, Tail, One, Orderly;
    var nl := NewLine(m);
    CutLine(m);
    LinesSplit(m[..nl + 1], m[nl + 1..]);
    assert m == m[..nl + 1] + m[nl + 1..] == m[..nl + 1] + (m[nl + 1..] + []);
    OrderlyPart(m, m[..nl + 1], m[nl + 1..], []);
  }

  lemma Nothing(s: seq<Text>)
    ensures s + [] == s && [] + s == s
  {}

  /** A chunk that comes when p is queued.  If p has nothing behind its last line end, its
      lines are delivered and the chunk is left for the next read; else what is behind it
      is joined with the chunk, which is looked at only if it has a line feed. */
  lemma {:induction false} DrainedJoined(p: Text, c: Text)
    requires p != [] && c != [] && Orderly(p + c)
    ensures Drained([p, c]) ==
      if Tail(p) == [] then ([c], Lines(p))
      else if LF !in c then ([Tail(p) + c], Lines(p))
      else (if Tail(p + c) == [] then [] else [Tail(p + c)], Lines(p + c))
    decreases |p|
  {
    hide First, Stripped, NoEnd, NewLine, Lines, Tail, Drained, Orderly;
    NextCases([p, c]);
    DrainedStep([p, c]);
    OrderlyPart(p + c, [], p, c);
    var nl := NewLine(p);
    if nl == |p| {
      JoinWhole(p, c);
    } else {
      var rest := p[nl + 1..];
      assert [p, c][1..] == [c] && [rest] + [c] == [rest, c] && [] + [c] == [c];
      CutOff(p);
      if rest == [] {
        NoLines();
        Nothing(One(Stripped(p[..nl])));
      } else {
        CutOffJoined(p, c);
        DrainedJoined(rest, c);
      }
    }
  }

  lemma CutOffJoined(p: Text, c: Text)
    requires Orderly(p + c) && NewLine(p) < |p| && Orderly(p)
    ensures var nl := NewLine(p); var rest := p[nl + 1..];
            && Lines(p + c) == One(Stripped(p[..nl])) + Lines(rest + c) && Tail(p + c) == Tail(rest + c)
            && Orderly(rest + c)
  {
    hide NewLine, Stripped, Lines, Tail, One;
    var nl := NewLine(p);
    CutLine(p);
    LinesSplit(p[..nl + 1], p[nl + 1..] + c);
    assert p + c == p[..nl + 1] + (p[nl + 1..] + c);
    OrderlyPart(p + c, p[..nl + 1], p[nl + 1..] + c, []);
  }

  lemma JoinWhole(p: Text, c: Text)
    requires p != [] && c != [] && Orderly(p + c) && NewLine(p) == |p|
    ensures Lines(p) == [] && Tail(p) == p
    ensures Drained([p, c]) ==
      if LF !in c then ([p + c], [])
      else (if Tail(p + c) == [] then [] else [Tail(p + c)], Lines(p + c))
  {
    hide First, Stripped, Lines, Tail, Drained, Orderly, NewLine, NoEnd;
    NoCutNoEnd(p);
    NoEndNoLine(p);
    NextCases([p, c]);
    DrainedStep([p, c]);
    assert [p, c][2..] == [] && [p + c] + [] == [p + c];
    FeedIn(p, c);
    if LF in c {
      DrainedAlone(p + c);
      Nothing(Lines(p + c));
    }
  }

  lemma FeedIn(p: Text, c: Text)
    requires NoEnd(p)
    ensures First(p + c, LF) < |p + c| <==> LF in c
  {
    var i := First(p + c, LF);
    assert i < |p + c| && i >= |p| ==> (p + c)[i] == c[i - |p|];
    assert forall k :: 0 <= k < |c| ==> c[k] == (p + c)[|p| + k];
  }

  /** No line end is in what is queued. */
  predicate Quiet(ms: seq<Text>) {
    match ms case _ => forall k :: 0 <= k < |ms| ==> NoEnd(ms[k])
  }

  lemma QuietOne(m: Text)
    ensures Quiet([]) && (Quiet([m]) <==> NoEnd(m)) && (NoEnd(m) <==> LF !in m && CR !in m)
  {
    assert [m][0] == m;
  }

  lemma {:induction false} TailNoEnd(s: Text)
    ensures NoEnd(Tail(s))
    decreases |s|
  {
    var e := FirstEnd(s);
    if e < |s| { TailNoEnd(s[e + 1..]); }
  }

  /** A chunk that joins an incomplete line leaves no line end behind if, and only if, it
      has a line feed or no carriage return. */
  lemma JoinLeavesNoLine(p: Text, c: Text)
    requires NoEnd(p) && p != [] && c != [] && Orderly(p + c)
    ensures Quiet(Drained([p, c]).0) <==> LF in c || CR !in c
  {
    hide Drained, Orderly, Lines, Tail, First, NewLine, Quiet, NoEnd;
    NoEndNoLine(p);
    DrainedJoined(p, c);
    QuietOne(p);
    if LF in c {
      TailNoEnd(p + c);
      QuietOne(Tail(p + c));
    } else {
      QuietOne(p + c);
    }
  }

  /** The state between reads: at most one message is left. */
  ghost predicate Rested(received: Text, consumed: Text, delivered: seq<Text>, ms: seq<Text>) {
    match ms
    case _ => |ms| <= 1 && Accounted(received, consumed, delivered, Concat(ms)) && [] !in ms
  }

  /** What a chunk does to the queue. */
  lemma DrainedChunk(received: Text, consumed: Text, delivered: seq<Text>, ms: seq<Text>, chunk: Text)
    requires Rested(received, consumed, delivered, ms) && chunk != [] && Orderly(received + chunk)
    ensures ms == [] ==> Drained(ms + [chunk]) == (if Tail(chunk) == [] then [] else [Tail(chunk)], Lines(chunk))
    ensures ms != [] ==> var p := ms[0];
      Drained(ms + [chunk]) ==
        if Tail(p) == [] then ([chunk], Lines(p))
        else if LF !in chunk then ([Tail(p) + chunk], Lines(p))
        else (if Tail(p + chunk) == [] then [] else [Tail(p + chunk)], Lines(p + chunk))
    ensures Quiet(ms) ==> (Quiet(Drained(ms + [chunk]).0) <==> ms == [] || LF in chunk || CR !in chunk)
  {
    hide Lines, Tail, Drained, NoEnd, Concat, Orderly, Quiet;
    if ms == [] {
      assert ms + [chunk] == [chunk];
      OrderlyPart(received + chunk, received, chunk, []);
      DrainedAlone(chunk);
      TailNoEnd(chunk);
      QuietOne(Tail(chunk));
    } else {
      var p := ms[0];
      OneMessage(p);
      assert ms == [p] && ms + [chunk] == [p, chunk] && p != [];
      assert received + chunk == consumed + (p + chunk + []);
      OrderlyPart(received + chunk, consumed, p + chunk, []);
      DrainedJoined(p, chunk);
      QuietOne(p);
      if Quiet(ms) { JoinLeavesNoLine(p, chunk); }
    }
  }

  lemma OneMessage(m: Text)
    ensures Concat([m]) == m
  {
    ConcatFirst(m, []);
    ConcatNone();
  }

  lemma ReadStep(received: Text, consumed: Text, delivered: seq<Text>, ms: seq<Text>, chunk: Text)
    returns (eaten: Text)
    requires Rested(received, consumed, delivered, ms) && chunk != [] && Orderly(received + chunk)
    ensures var d := Drained(ms + [chunk]); Rested(received + chunk, eaten, delivered + d.1, d.0)
  {
    hide Lines, Tail, Ended, Drained, NoEnd, Concat, Quiet, Orderly;
    ConcatAdd(ms, chunk);
    assert received + chunk == consumed + (Concat(ms) + chunk);
    eaten := DrainedAccount(received + chunk, consumed, delivered, ms + [chunk]);
    DrainedChunk(received, consumed, delivered, ms, chunk);
  }

  lemma ConcatNone()
    ensures Concat([]) == []
  {}

  /** Whatever the chunks: the lines delivered are the first of the stream's lines,
      in order, and the rest of the stream is still queued.  If no line end is queued,
      all complete lines have been delivered. */
  lemma LinesComeThrough(received: Text, consumed: Text, delivered: seq<Text>, ms: seq<Text>)
    requires Rested(received, consumed, delivered, ms)
    ensures Lines(received) == delivered + Lines(Concat(ms)) && Tail(received) == Tail(Concat(ms))
    ensures Quiet(ms) ==> Lines(received) == delivered && Tail(received) == Concat(ms)
  {
    hide Lines, Tail, NoEnd, Concat;
    NothingLost(received, consumed, delivered, Concat(ms));
    if Quiet(ms) {
      if ms == [] {
        NoLines();
        ConcatNone();
      } else {
        OneMessage(ms[0]);
        assert ms == [ms[0]];
        NoEndNoLine(ms[0]);
      }
      assert delivered + [] == delivered;
    }
  }

  lemma NoEndNoLine(s: Text)
    requires NoEnd(s)
    ensures Lines(s) == [] && Tail(s) == s
  {
    FirstEndIs(s, |s|);
  }

  lemma RestedOne(received: Text, consumed: Text, delivered: seq<Text>, ms: seq<Text>)
    requires Rested(received, consumed, delivered, ms)
    ensures |ms| <= 1
  {}

  class Node {                                       // `SocketQueue`
    var msg: Text
    var next: Node?

    constructor (msg: Text)
      ensures this.msg == msg && next == null
    {
      this.msg, next := msg, null;
    }
  }

  ghost predicate Queued(front: Node?, rear: Node?, n: int, q: seq<Node>)
    reads q`next
  {
    match q
    case _ =>
      && n == |q|
      && (forall i, j :: 0 <= i < j < |q| ==> q[i] != q[j])
      && (forall i :: 0 <= i < |q| - 1 ==> q[i].next == q[i + 1])
      && (if q == [] then front == null
          else front == q[0] && rear == q[|q| - 1] && q[|q| - 1].next == null)
  }

  ghost function Msgs(q: seq<Node>): (ms: seq<Text>)
    reads q`msg
    ensures |ms| == |q| && forall i :: 0 <= i < |q| ==> ms[i] == q[i].msg
  {
    if q == [] then [] else [q[0].msg] + Msgs(q[1..])
  }

  class Socket {
    var front: Node?
    var rear: Node?
    var nMsg: int
    var Delivered: seq<Text>                         // the calls of `ParseServerMsg`
    ghost var Queue: seq<Node>
    ghost var Received: Text
    ghost var Consumed: Text

    /** What holds between reads. */
    ghost predicate Valid()
      reads this, Queue
    {
      Queued(front, rear, nMsg, Queue) && Rested(Received, Consumed, Delivered, Msgs(Queue))
    }

    constructor ()
      ensures Valid() && Queue == [] && Received == [] && Delivered == []
    {
      front, rear, nMsg, Delivered, Queue, Received, Consumed := null, null, 0, [], [], [], [];
      new;
      NoLines();
    }

    method Enqueue(qptr: Node)
      requires Queued(front, rear, nMsg, Queue) && qptr !in Queue && qptr.next == null
      modifies this`front, this`rear, this`nMsg, this`Queue, Queue`next
      ensures Queued(front, rear, nMsg, Queue) && Queue == old(Queue) + [qptr]
    {
      if nMsg != 0 {
        rear.next := qptr;
        rear := qptr;
      } else {
        front, rear := qptr, qptr;
      }
      nMsg := nMsg + 1;
      Queue := Queue + [qptr];
    }

    /** `AddtoQueue`; an empty chunk stands for a read that failed. */
    method AddtoQueue(chunk: Text) returns (r: bool)
      requires Queued(front, rear, nMsg, Queue)
      modifies this`front, this`rear, this`nMsg, this`Queue, Queue
      ensures Queued(front, rear, nMsg, Queue) && r == (chunk != [])
      ensures Msgs(Queue) == old(Msgs(Queue)) + if r then [chunk] else []
      ensures forall i :: 0 <= i < |Queue| ==> Queue[i] in old(Queue) || fresh(Queue[i])
    {
      hide Queued, Msgs;
      if chunk == [] { return false; }
      var qptr := new Node(chunk);
      ghost var q := Queue;
      Enqueue(qptr);
      MsgsAdd(q, qptr);
      r := true;
    }

    /** `RemovefromSocketQueue`, called with an empty `buf_q`. */
    method RemovefromSocketQueue() returns (comeback: bool, buf_q: Text, ghost at: nat)
      requires Queued(front, rear, nMsg, Queue)
      modifies this`front, this`rear, this`nMsg, this`Queue, Queue
      ensures Queued(front, rear, nMsg, Queue)
      ensures Turned(old(Msgs(Queue)), at, Turn(Msgs(Queue), comeback, buf_q))
      ensures Turn(Msgs(Queue), comeback, buf_q) == Next(old(Msgs(Queue)))
      ensures forall i :: 0 <= i < |Queue| ==> Queue[i] in old(Queue)
    {
      hide First, Queued, Next, Msgs, Turned;
      FrontIs();
      ghost var ms := Msgs(Queue);
      NextCases(ms);
      NextTurned(ms);
      at := if ms == [] then 0 else NewLine(ms[0]);
      if nMsg == 0 { return false, [], at; }
      var nl := First(front.msg, LF);
      if nl == |front.msg| { nl := First(front.msg, CR); }
      if nl < |front.msg| {
        buf_q := front.msg[..nl];
        if buf_q != [] && buf_q[|buf_q| - 1] == CR { buf_q := buf_q[..|buf_q| - 1]; }
        comeback := CutFront(nl);
      } else if !(nMsg > 1) {
        comeback, buf_q := false, [];
      } else {
        MergeFront();
        FrontIs();
        comeback, buf_q := First(front.msg, LF) < |front.msg|, [];
      }
    }

    lemma FrontIs()
      requires Queued(front, rear, nMsg, Queue)
      ensures nMsg == |Queue| == |Msgs(Queue)| && (Queue != [] ==> front == Queue[0] && front.msg == Msgs(Queue)[0])
    {}

    /** What is behind the line end stays in front of the queue, if anything is. */
    method CutFront(nl: nat) returns (comeback: bool)
      requires Queued(front, rear, nMsg, Queue) && Queue != [] && nl < |Msgs(Queue)[0]|
      modifies this`front, this`rear, this`nMsg, this`Queue, Queue`msg
      ensures Queued(front, rear, nMsg, Queue)
      ensures comeback == (old(Msgs(Queue))[0][nl + 1..] != [])
      ensures Msgs(Queue) == Rest(old(Msgs(Queue))[0][nl + 1..]) + old(Msgs(Queue))[1..]
      ensures forall i :: 0 <= i < |Queue| ==> Queue[i] in old(Queue)
    {
      hide Queued, Msgs;
      ghost var ms, q := Msgs(Queue), Queue;
      FrontIs();
      Apart();
      front.msg := front.msg[nl + 1..];
      if front.msg != [] {
        assert forall i :: 0 < i < |q| ==> q[i].msg == ms[i];
        MsgsAre(Queue, Rest(front.msg) + ms[1..]);
        return true;
      }
      Pop();
      assert forall i :: 0 <= i < |q| - 1 ==> q[1..][i].msg == ms[1..][i];
      MsgsAre(Queue, ms[1..]);
      assert Rest([]) + ms[1..] == ms[1..];
      comeback := false;
    }

    lemma Apart()
      requires Queued(front, rear, nMsg, Queue)
      ensures forall i :: 0 < i < |Queue| ==> Queue[i] != Queue[0]
    {}

    /** Two messages become one. */
    method MergeFront()
      requires Queued(front, rear, nMsg, Queue) && |Queue| > 1
      modifies this`front, this`rear, this`nMsg, this`Queue, Queue`msg
      ensures Queued(front, rear, nMsg, Queue) && Queue != []
      ensures Msgs(Queue) == [old(Msgs(Queue))[0] + old(Msgs(Queue))[1]] + old(Msgs(Queue))[2..]
      ensures forall i :: 0 <= i < |Queue| ==> Queue[i] in old(Queue)
    {
      assert front.next == Queue[1];
      front.next.msg := front.msg + front.next.msg;
      Pop();
    }

    method Pop()
      requires Queued(front, rear, nMsg, Queue) && Queue != []
      modifies this`front, this`rear, this`nMsg, this`Queue
      ensures Queued(front, rear, nMsg, Queue) && Queue == old(Queue)[1..]
    {
      front := front.next;
      nMsg := nMsg - 1;
      if nMsg == 0 { rear := null; }
      Queue := Queue[1..];
    }

    /** `IRC_ServerRead` for one chunk of the stream; an empty one stands for a read that
        failed.  With nothing queued, all complete lines of the chunk are delivered and the
        rest of it is queued.  Else what is queued is worked off first: if that ends a
        line, the chunk waits for the next read, and if it does not, the chunk joins it and
        waits if it has no line feed. */
    method IRC_ServerRead(chunk: Text)
      requires Valid() && Orderly(Received + chunk)
      modifies this, Queue
      ensures Valid() && Received == old(Received) + chunk && |old(Queue)| <= 1
      ensures (Msgs(Queue), Delivered) == FedMore((old(Msgs(Queue)), old(Delivered)), chunk)
      ensures chunk == [] ==> Msgs(Queue) == old(Msgs(Queue)) && Delivered == old(Delivered)
      ensures chunk != [] && old(Queue) == [] ==>
        && Delivered == old(Delivered) + Lines(chunk)
        && Msgs(Queue) == if Tail(chunk) == [] then [] else [Tail(chunk)]
      ensures chunk != [] && old(Queue) != [] ==>
        var p := old(Msgs(Queue))[0];
        if Tail(p) == [] then Delivered == old(Delivered) + Lines(p) && Msgs(Queue) == [chunk]
        else if LF !in chunk then Delivered == old(Delivered) + Lines(p) && Msgs(Queue) == [Tail(p) + chunk]
        else
          && Delivered == old(Delivered) + Lines(p + chunk)
          && Msgs(Queue) == if Tail(p + chunk) == [] then [] else [Tail(p + chunk)]
      ensures chunk != [] && old(Quiet(Msgs(Queue))) ==>
        (Quiet(Msgs(Queue)) <==> old(Queue) == [] || LF in chunk || CR !in chunk)
      ensures Lines(Received) == Delivered + Lines(Concat(Msgs(Queue))) && Tail(Received) == Tail(Concat(Msgs(Queue)))
      ensures Quiet(Msgs(Queue)) ==> Delivered == Lines(Received) && Concat(Msgs(Queue)) == Tail(Received)
      ensures |Queue| <= 1 && forall i :: 0 <= i < |Queue| ==> Queue[i] in old(Queue) || fresh(Queue[i])
    {
      hide Queued, Rested, Drained, Lines, Tail, Concat, Msgs, Orderly, Quiet;
      ghost var ms := Msgs(Queue);
      RestedOne(Received, Consumed, Delivered, ms);
      var r := AddtoQueue(chunk);
      if r {
        Drain();
        DrainedChunk(Received, Consumed, old(Delivered), ms, chunk);
        ghost var eaten := ReadStep(Received, Consumed, old(Delivered), ms, chunk);
        Received, Consumed := Received + chunk, eaten;
      } else {
        assert Received + chunk == Received && ms + [] == ms;
      }
      RestedOne(Received, Consumed, Delivered, Msgs(Queue));
      LinesComeThrough(Received, Consumed, Delivered, Msgs(Queue));
    }

    /** The drain loop. */
    method Drain()
      requires Queued(front, rear, nMsg, Queue)
      modifies this`front, this`rear, this`nMsg, this`Queue, this`Delivered, Queue
      ensures Queued(front, rear, nMsg, Queue)
      ensures (Msgs(Queue), Delivered) == (Drained(old(Msgs(Queue))).0, old(Delivered) + Drained(old(Msgs(Queue))).1)
      ensures forall i :: 0 <= i < |Queue| ==> Queue[i] in old(Queue)
    {
      hide Queued, Next, Concat, Drained, One, Msgs, Turned;
      ghost var q, m0 := Queue, Msgs(Queue);
      var comeback, buf_q := true, [];
      while comeback
        invariant Queued(front, rear, nMsg, Queue)
        invariant forall i :: 0 <= i < |Queue| ==> Queue[i] in q
        invariant if comeback
          then Drained(m0).0 == Drained(Msgs(Queue)).0
               && old(Delivered) + Drained(m0).1 == Delivered + Drained(Msgs(Queue)).1
          else Msgs(Queue) == Drained(m0).0 && Delivered == old(Delivered) + Drained(m0).1
        decreases comeback, |Concat(Msgs(Queue))| + |Msgs(Queue)|
      {
        NextShrinks(Msgs(Queue));
        DrainedStep(Msgs(Queue));
        ghost var was := Delivered;
        ghost var at;
        comeback, buf_q, at := RemovefromSocketQueue();
        if buf_q != [] {
          Delivered := Delivered + [buf_q];            // `ParseServerMsg`
        }
        OneMore(was, buf_q, Delivered, Drained(Msgs(Queue)).1);
      }
    }
  }

  lemma {:induction false} MsgsAdd(q: seq<Node>, n: Node)
    ensures Msgs(q + [n]) == Msgs(q) + [n.msg]
  {
    assert forall i :: 0 <= i < |q| ==> (q + [n])[i] == q[i];
  }

  lemma MsgsAre(q: seq<Node>, ms: seq<Text>)
    requires |q| == |ms| && forall i :: 0 <= i < |q| ==> q[i].msg == ms[i]
    ensures Msgs(q) == ms
  {}

  lemma ConcatPrefix(chunks: seq<Text>, i: nat)
    requires i < |chunks| && Orderly(Concat(chunks))
    ensures Concat(chunks[..i + 1]) == Concat(chunks[..i]) + chunks[i]
    ensures Orderly(Concat(chunks[..i + 1]))
  {
    hide Concat, Orderly;
    assert chunks[..i + 1] == chunks[..i] + [chunks[i]];
    ConcatAdd(chunks[..i], chunks[i]);
    assert chunks == chunks[..i + 1] + chunks[i + 1..];
    ConcatApart(chunks[..i + 1], chunks[i + 1..]);
    OrderlyPart(Concat(chunks), [], Concat(chunks[..i + 1]), Concat(chunks[i + 1..]));
  }

  lemma {:induction false} ConcatApart(a: seq<Text>, b: seq<Text>)
    ensures Concat(a + b) == Concat(a) + Concat(b)
  {
    hide Concat;
    if a == [] {
      ConcatNone();
      assert a + b == b && [] + Concat(b) == Concat(b);
    } else {
      ConcatApart(a[1..], b);
      ConcatFirst(a[0], a[1..]);
      ConcatFirst(a[0], a[1..] + b);
      assert a == [a[0]] + a[1..] && a + b == [a[0]] + (a[1..] + b);
      assert a[0] + (Concat(a[1..]) + Concat(b)) == a[0] + Concat(a[1..]) + Concat(b);
    }
  }

  // ------------------------------------------------ the stream and its chunks

  /** One more chunk: what is queued then, and what has been delivered. */
  function FedMore(was: (seq<Text>, seq<Text>), chunk: Text): (seq<Text>, seq<Text>) {
    if chunk == [] then was
    else
      var d := Drained(was.0 + [chunk]);
      (d.0, was.1 + d.1)
  }

  function Fed(chunks: seq<Text>): (seq<Text>, seq<Text>) {
    if chunks == [] then ([], []) else FedMore(Fed(chunks[..|chunks| - 1]), chunks[|chunks| - 1])
  }

  lemma {:induction false} FedIsRested(chunks: seq<Text>) returns (consumed: Text)
    requires Orderly(Concat(chunks))
    ensures Rested(Concat(chunks), consumed, Fed(chunks).1, Fed(chunks).0)
    decreases |chunks|
  {
    hide Concat, Drained, Orderly, Lines, NoEnd;
    ConcatNone();
    NoLines();
    if chunks == [] {
      consumed := [];
      assert Orderly([]) by { OrderlyNone(); }
    } else {
      var n := |chunks| - 1;
      var last, all := chunks[n], Concat(chunks);
      ConcatPrefix(chunks, n);
      assert chunks[..n + 1] == chunks;
      OrderlyPart(all, [], Concat(chunks[..n]), last);
      consumed := FedIsRested(chunks[..n]);
      if last == [] {
        assert Concat(chunks[..n]) + [] == Concat(chunks[..n]);
      } else {
        consumed := ReadStep(Concat(chunks[..n]), consumed, Fed(chunks[..n]).1, Fed(chunks[..n]).0, last);
      }
    }
  }

  lemma OrderlyNone()
    ensures Orderly([])
  {}

  lemma {:induction false} LinesClean(s: Text)
    ensures forall l :: l in Lines(s) ==> CR !in l
    decreases |s|
  {
    hide FirstEnd;
    var e := FirstEnd(s);
    if e < |s| {
      LinesClean(s[e + 1..]);
      assert forall k :: 0 <= k < e ==> s[..e][k] == s[k];
    }
  }

  /** A carriage return before a line feed that is not directly behind it ends up
      inside a line that is delivered, if the stream comes in one chunk. */
  lemma {:induction false} LoneReturn(m: Text)
    requires !Orderly(m)
    ensures exists l :: l in Drained([m]).1 && CR in l
    decreases |m|
  {
    hide First, Concat, Drained, Stripped;
    DrainedStep([m]);
    var i, j :| 0 <= i && i + 1 < j < |m| && m[i] == CR && m[j] == LF && m[i + 1] != LF;
    assert First(m, LF) < |m|;
    var nl := First(m, LF);
    assert [m][1..] == [];
    if i < nl {
      StrippedHas(m[..nl], i);
      assert Stripped(m[..nl]) in One(Stripped(m[..nl])) && CR in Stripped(m[..nl]);
      assert Stripped(m[..nl]) in Drained([m]).1;
    } else {
      var rest := m[nl + 1..];
      assert rest[i - nl - 1] == CR && rest[j - nl - 1] == LF && rest[i - nl] != LF;
      LoneReturn(rest);
      assert [rest] + [] == [rest];
      var l :| l in Drained([rest]).1 && CR in l;
      assert l in Drained([m]).1;
    }
  }

  lemma StrippedHas(l: Text, i: nat)
    requires i < |l| - 1 && l[i] == CR
    ensures CR in Stripped(l) && Stripped(l) != []
  {
    assert Stripped(l)[i] == CR;
  }

  /** However the stream is cut into chunks, what is delivered are the first of its
      lines: that holds if, and only if, every carriage return that comes before a
      line feed is directly followed by one. */
  lemma AnyChunks(s: Text)
    ensures (forall chunks :: Concat(chunks) == s ==> Fed(chunks).1 <= Lines(s)) <==> Orderly(s)
  {
    hide Concat, Drained, Lines, Orderly;
    if Orderly(s) {
      forall chunks | Concat(chunks) == s ensures Fed(chunks).1 <= Lines(s) {
        var consumed := FedIsRested(chunks);
        LinesComeThrough(s, consumed, Fed(chunks).1, Fed(chunks).0);
      }
    } else {
      var one := [s];
      OrderlyNone();
      OneChunk(s);
      LoneReturn(s);
      LinesClean(s);
      var l :| l in Drained([s]).1 && CR in l;
      assert Concat(one) == s && l in Fed(one).1 && l !in Lines(s);
    }
  }

  lemma OneChunk(s: Text)
    requires s != []
    ensures Concat([s]) == s && Fed([s]) == Drained([s])
  {
    ConcatFirst(s, []);
    ConcatNone();
    assert [s] + [] == [s] && s + [] == s;
    assert [s][..0] == [] && [] + [s] == [s];
    assert Fed([s][..0]) == ([], []);
    assert [] + Drained([s]).1 == Drained([s]).1;
  }

  /** A whole connection, for every way the stream may be cut into chunks.  All lines are
      delivered if every chunk has a line feed or no carriage return. */
  method Connection(chunks: seq<Text>) returns (s: Socket)
    requires Orderly(Concat(chunks))
    ensures s.Valid() && |s.Queue| <= 1 && (Msgs(s.Queue), s.Delivered) == Fed(chunks)
    ensures Lines(Concat(chunks)) == s.Delivered + Lines(Concat(Msgs(s.Queue)))
    ensures (forall i :: 0 <= i < |chunks| ==> LF in chunks[i] || CR !in chunks[i]) ==>
      s.Delivered == Lines(Concat(chunks)) && Concat(Msgs(s.Queue)) == Tail(Concat(chunks))
  {
    hide Orderly, Lines, Tail, Concat, Rested, Queued, FedMore, Quiet;
    s := new Socket();
    ConcatNone();
    NoLines();
    QuietOne([]);
    assert Msgs([]) == [];
    for i := 0 to |chunks|
      invariant s.Valid() && fresh(s) && |s.Queue| <= 1 && forall j :: 0 <= j < |s.Queue| ==> fresh(s.Queue[j])
      invariant s.Received == Concat(chunks[..i]) && (Msgs(s.Queue), s.Delivered) == Fed(chunks[..i])
      invariant Lines(s.Received) == s.Delivered + Lines(Concat(Msgs(s.Queue)))
      invariant Quiet(Msgs(s.Queue)) ==> s.Delivered == Lines(s.Received) && Concat(Msgs(s.Queue)) == Tail(s.Received)
      invariant (forall j :: 0 <= j < i ==> LF in chunks[j] || CR !in chunks[j]) ==> Quiet(Msgs(s.Queue))
    {
      ConcatPrefix(chunks, i);
      assert chunks[..i + 1][..i] == chunks[..i];
      s.IRC_ServerRead(chunks[i]);
    }
    assert chunks[..|chunks|] == chunks;
  }
}
