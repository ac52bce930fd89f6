/** The bounded history of input lines, src/history.c: a doubly linked list whose
    nodes are numbered from 1. */
module History {
  import opened List

  // ------------------------------------------------------- the reference

  /** The last n of a sequence, or all of it. */
  function Last<T>(s: seq<T>, n: nat): (r: seq<T>)
    ensures |r| == if |s| < n then |s| else n
  {
    if |s| <= n then s else s[|s| - n..]
  }

  /** What is kept of all lines added so far depends on them alone, not on how
      much of them was kept before. */
  lemma LastOfLast<T>(s: seq<T>, x: T, n: nat)
    ensures Last(Last(s, n) + [x], n) == Last(s + [x], n)
  {}

  /** They are the end of it. */
  lemma LastIsEnd<T>(s: seq<T>, n: nat)
    ensures exists before: seq<T> :: s == before + Last(s, n) && (before != [] ==> |Last(s, n)| == n)
  {
    var k := if |s| <= n then 0 else |s| - n;
    assert s == s[..k] + Last(s, n);
  }

  class Input {
    var line: string
    var counter: int
    var prev: Input?
    var next: Input?

    constructor (line: string)
      ensures this.line == line && counter == 0 && prev == null && next == null
    {
      this.line, counter, prev, next := line, 0, null, null;
    }
  }

  /** Linked both ways from end to end. */
  ghost predicate Linked(head: Input?, tail: Input?, ns: seq<Input>)
    reads ns`prev, ns`next
  {
    match ns
    case _ =>
      && (forall i, j :: 0 <= i < j < |ns| ==> ns[i] != ns[j])
      && (forall i :: 0 <= i < |ns| - 1 ==> ns[i].next == ns[i + 1])
      && (forall i :: 0 <= i < |ns| - 1 ==> ns[i + 1].prev == ns[i])
      && (if ns == [] then head == tail == null
          else head == ns[0] && ns[0].prev == null && tail == ns[|ns| - 1] && ns[|ns| - 1].next == null)
  }

  ghost predicate Numbered(ns: seq<Input>)
    reads ns`counter
  {
    match ns case _ => forall i :: 0 <= i < |ns| ==> ns[i].counter == i + 1
  }

  ghost function Lines(ns: seq<Input>): (ls: seq<string>)
    reads ns`line
    ensures |ls| == |ns| && forall i :: 0 <= i < |ns| ==> ls[i] == ns[i].line
  {
    if ns == [] then [] else Lines(ns[..|ns| - 1]) + [ns[|ns| - 1].line]
  }

  lemma LinkedApart(head: Input?, tail: Input?, ns: seq<Input>)
    requires Linked(head, tail, ns)
    ensures forall i, j :: 0 <= i < j < |ns| ==> ns[i] != ns[j]
  {}

  lemma {:induction false} LinesAre(ns: seq<Input>, ls: seq<string>)
    requires |ns| == |ls| && forall i :: 0 <= i < |ns| ==> ns[i].line == ls[i]
    ensures Lines(ns) == ls
  {}

  class InputHistory {
    var head: Input?
    var tail: Input?
    var nLines: int
    ghost var Nodes: seq<Input>

    ghost predicate Valid()
      reads this, Nodes
    {
      Linked(head, tail, Nodes) && Numbered(Nodes) && nLines == |Nodes|
    }

    constructor ()
      ensures Valid() && Nodes == []
    {
      head, tail, nLines, Nodes := null, null, 0, [];
    }

    /** `RemovefromInputHistory`: the node leaves, the others are numbered anew. */
    method RemovefromInputHistory(input: Input, ghost k: nat) returns (next: Input?)
      requires Valid() && k < |Nodes| && Nodes[k] == input
      modifies this, Nodes
      ensures Valid() && Nodes == Dropped(old(Nodes), k) && Lines(Nodes) == Dropped(old(Lines(Nodes)), k)
      ensures next == if k < |Nodes| then Nodes[k] else null
    {
      hide Dropped, Numbered, Lines, Linked;
      LinkedApart(head, tail, Nodes);
      ghost var ns, ls := Nodes, Lines(Nodes);
      next := Unlink(input, k);
      nLines := nLines - 1;
      Renumber();
      LinesDropped(ns, ls, k);
    }

    method Unlink(input: Input, ghost k: nat) returns (next: Input?)
      requires Linked(head, tail, Nodes) && k < |Nodes| && Nodes[k] == input
      modifies this`head, this`tail, this`Nodes, Nodes`prev, Nodes`next
      ensures Nodes == Dropped(old(Nodes), k) && Linked(head, tail, Nodes)
      ensures next == if k < |Nodes| then Nodes[k] else null
    {
      hide Dropped;
      ghost var ns := Nodes;
      next := input.next;
      var prev := input.prev;
      assert next == if k + 1 < |ns| then ns[k + 1] else null;
      assert prev == if k > 0 then ns[k - 1] else null;
      if head == input { head := next; }
      if tail == input { tail := prev; }
      if next != null { next.prev := prev; }
      if prev != null { prev.next := next; }
      Nodes := Dropped(ns, k);
      ghost var n := |Nodes|;
      assert n > 0 ==> Nodes[n - 1] == ns[if n - 1 < k then n - 1 else n];
    }

    /** The loop that numbers the entries again. */
    method Renumber()
      requires Linked(head, tail, Nodes)
      modifies Nodes`counter
      ensures Numbered(Nodes)
    {
      var i, aux := 1, head;
      while aux != null
        invariant 1 <= i <= |Nodes| + 1 && aux == if i <= |Nodes| then Nodes[i - 1] else null
        invariant forall j :: 0 <= j < i - 1 ==> Nodes[j].counter == j + 1
        decreases |Nodes| + 1 - i
      {
        aux.counter := i;
        aux, i := aux.next, i + 1;
      }
    }

    /** `AddtoUserInputHistory` for the arrows history (flag 1), which holds at most
        sz lines.  A history that is longer already goes on growing. */
    method AddtoUserInputHistory(buf: string, sz: nat) returns (aux: Input?)
      requires Valid()
      modifies this, Nodes
      ensures Valid()
      ensures |old(Nodes)| <= sz ==> |Nodes| <= sz && Lines(Nodes) == Last(old(Lines(Nodes)) + [buf], sz)
      ensures |old(Nodes)| > sz ==> Lines(Nodes) == if sz == 0 then old(Lines(Nodes)) else old(Lines(Nodes)) + [buf]
      ensures if sz == 0 then aux == null else Nodes != [] && aux == Nodes[|Nodes| - 1]
      ensures forall i :: 0 <= i < |Nodes| ==> Nodes[i] in old(Nodes) || fresh(Nodes[i])
    {
      hide Lines, Linked, Numbered, Dropped;
      if sz == 0 { return null; }
      ghost var ns, ls := Nodes, Lines(Nodes);
      HeadIs();
      if nLines == sz {
        var next := RemovefromInputHistory(head, 0);
        LastDropped(ls, buf, sz);
      }
      aux := Append(buf);
    }

    lemma HeadIs()
      requires Valid()
      ensures nLines == |Nodes| && (Nodes == [] <==> head == null) && (Nodes != [] ==> head == Nodes[0])
    {}

    method Append(buf: string) returns (aux: Input)
      requires Valid()
      modifies this, Nodes
      ensures Valid() && fresh(aux) && Nodes == old(Nodes) + [aux] && Lines(Nodes) == old(Lines(Nodes)) + [buf]
    {
      hide Lines, Linked;
      aux := new Input(buf);
      ghost var ls := Lines(Nodes);
      HeadIs();
      var first := head == null;
      if !first { TailIs(); }
      LinkLast(aux);
      if first {
        aux.counter := 1;
        nLines := 1;
      } else {
        nLines := nLines + 1;
        aux.counter := if aux.prev != null then aux.prev.counter + 1 else 1;
      }
      LinesAre(Nodes, ls + [buf]);
    }

    lemma TailIs()
      requires Valid() && Nodes != []
      ensures tail == Nodes[|Nodes| - 1]
    {}

    /** The links of a new last node. */
    method LinkLast(aux: Input)
      requires Linked(head, tail, Nodes) && aux !in Nodes && aux.next == null && aux.prev == null
      modifies this`head, this`tail, this`Nodes, Nodes`next, aux`prev
      ensures Linked(head, tail, Nodes) && Nodes == old(Nodes) + [aux] && aux.prev == if old(Nodes) == [] then null else old(tail)
    {
      if head == null {
        head, tail := aux, aux;
      } else {
        aux.prev := tail;
        tail.next := aux;
        tail := aux;
      }
      Nodes := Nodes + [aux];
    }

    /** `AdjustHistorySize`: the newest n stay. */
    method AdjustHistorySize(n: nat)
      requires Valid()
      modifies this, Nodes
      ensures Valid() && |Nodes| <= n && Lines(Nodes) == Last(old(Lines(Nodes)), n)
    {
      hide Linked, Numbered, Lines, Dropped;
      HeadIs();
      ghost var ls, ns := Lines(Nodes), Nodes;
      if n == 0 {
        if nLines != 0 { Clear(); }
        NoLines();
      } else if nLines > n {
        var diff := nLines - n;
        while diff != 0
          invariant Valid() && 0 <= diff && |Nodes| == n + diff && Lines(Nodes) == Last(ls, n + diff)
          invariant forall i :: 0 <= i < |Nodes| ==> Nodes[i] in ns
        {
          diff := diff - 1;
          HeadIs();
          DroppedIn(Nodes, 0);
          LastStep(ls, n + diff);
          var next := RemovefromInputHistory(head, 0);
        }
      }
    }

    /** `ClearHistoryEntry`, everything */
    method Clear()
      requires Valid()
      modifies this
      ensures Valid() && Nodes == []
    {
      head, tail, nLines, Nodes := null, null, 0, [];
    }
  }

  lemma NoLines()
    ensures Lines([]) == []
  {}

  lemma DroppedIn<T>(s: seq<T>, k: nat)
    requires k < |s|
    ensures forall i :: 0 <= i < |s| - 1 ==> Dropped(s, k)[i] in s
  {}

  lemma LastStep(ls: seq<string>, n: nat)
    requires n < |ls|
    ensures Last(ls, n + 1) != [] && Dropped(Last(ls, n + 1), 0) == Last(ls, n)
  {}

  lemma LastDropped(ls: seq<string>, x: string, sz: nat)
    requires |ls| == sz > 0
    ensures Dropped(ls, 0) + [x] == Last(ls + [x], sz)
  {}

  lemma LinesDropped(ns: seq<Input>, was: seq<string>, k: nat)
    requires k < |ns| == |was| && forall i :: 0 <= i < |ns| && i != k ==> ns[i].line == was[i]
    ensures Lines(Dropped(ns, k)) == Dropped(was, k)
  {
    hide Dropped;
    var d := Dropped(ns, k);
    forall i | 0 <= i < |d| ensures d[i].line == Dropped(was, k)[i] { assert d[i] == ns[if i < k then i else i + 1]; }
    LinesAre(d, Dropped(was, k));
  }

  /** Any run of lines typed: the history holds the last sz of them, in order. */
  method Session(lines: seq<string>, sz: nat) returns (h: InputHistory)
    ensures h.Valid() && Lines(h.Nodes) == Last(lines, sz)
  {
    hide Lines, Last, Linked, Numbered;
    h := new InputHistory();
    NoLines();
    LastNone(sz);
    for i := 0 to |lines|
      invariant h.Valid() && fresh(h) && |h.Nodes| <= sz && Lines(h.Nodes) == Last(lines[..i], sz)
      invariant forall j :: 0 <= j < |h.Nodes| ==> fresh(h.Nodes[j])
    {
      var aux := h.AddtoUserInputHistory(lines[i], sz);
      LastOfLast(lines[..i], lines[i], sz);
      assert lines[..i + 1] == lines[..i] + [lines[i]];
    }
    assert lines[..|lines|] == lines;
  }

  lemma LastNone(sz: nat)
    ensures Last<string>([], sz) == []
  {}
}
