/** The stack of windows of src/windows.c and the operations on it. */
module WindowStack {
  import opened StackEffects
  import opened Windows

  class Window {
    const kind: Kind
    var w1: Pane
    var buf: array<Cell>             // what lies beneath

    constructor (kind: Kind, w1: Pane)
      ensures this.kind == kind && this.w1 == w1 && fresh(buf)
    {
      this.kind, this.w1 := kind, w1;
      buf := new Cell[0];
    }
  }

  // ------------------------------------------------------- what must hold

  ghost function Buffers(ws: seq<Window>): set<array<Cell>>
    reads ws`buf
  {
    set w | w in ws :: w.buf
  }

  /** Windows keep their buffers or get new ones; none takes over another's. */
  twostate predicate OwnBuffers(ws: seq<Window>)
    reads ws`buf
  {
    match ws case _ => forall i :: 0 <= i < |ws| ==> ws[i].buf == old(ws[i].buf) || fresh(ws[i].buf)
  }

  /** Only new windows and new buffers have been added. */
  twostate predicate Renewed(new ws: seq<Window>, was: seq<Window>)
    reads ws`buf
  {
    match ws
    case _ =>
      forall i :: 0 <= i < |ws| ==>
        (ws[i] in was || fresh(ws[i])) && (ws[i].buf in old(Buffers(was)) || fresh(ws[i].buf))
  }

  ghost predicate Apart(ws: seq<Window>)
    reads ws`buf
  {
    forall i, j :: 0 <= i < j < |ws| ==> ws[i] != ws[j] && ws[i].buf != ws[j].buf
  }

  /** The windows, bottom to top, look like `ps`; they are distinct objects with
      distinct buffers; every buffer holds what the windows further down show. */
  ghost predicate Layered(base: Frame, ws: seq<Window>, ps: seq<Pane>)
    reads ws, Buffers(ws)
  {
    && |ps| == |ws| && AllValid(ps) && Apart(ws)
    && forall i :: 0 <= i < |ws| ==>
         ws[i].w1 == ps[i] && SavedBelow(base, ps[..i], ps[i], ws[i].buf[..])
  }

  /** The screen shows the base painted with the windows, bottom to top. */
  ghost predicate Shown(screen: array2<Cell>, base: Frame, ps: seq<Pane>)
    reads screen
  {
    && Sized(screen) && AllValid(ps)
    && forall r, c :: OnScreen(r, c) ==> screen[r, c] == CellAt(base, ps, r, c)
  }

  /** The same, except perhaps where the top window lies. */
  ghost predicate ShownAround(screen: array2<Cell>, base: Frame, ps: seq<Pane>)
    reads screen
  {
    && Sized(screen) && AllValid(ps) && ps != []
    && forall r, c :: OnScreen(r, c) && !ps[|ps| - 1].Covers(r, c) ==> screen[r, c] == CellAt(base, ps, r, c)
  }

  /** Windows that could go on a stack one after the other. */
  ghost predicate Spare(R: seq<Window>, ws: seq<Window>)
    reads R`buf, ws`buf
  {
    Apart(R) && forall i :: 0 <= i < |R| ==> R[i] !in ws && R[i].buf !in Buffers(ws)
  }

  /** What was lifted off a stack can be put back. */
  lemma LiftedIsSpare(S: seq<Window>, k: nat)
    requires k < |S| && Apart(S)
    ensures Spare(S[k + 1..], S[..k])
    ensures S[k] !in S[..k] + S[k + 1..] && S[k].buf !in Buffers(S[..k]) && S[k].buf !in Buffers(S[k + 1..])
  {
    var R := S[k + 1..];
    forall i | 0 <= i < |R| ensures R[i] == S[k + 1 + i] {}
  }

  lemma TopTwoApart(S: seq<Window>, T: seq<Window>)
    requires |S| >= 2 && Apart(S) && T == S[..|S| - 1][..|S| - 2]
    ensures var first, second := S[|S| - 1], S[|S| - 2];
            && first !in T && first.buf !in Buffers(T)
            && second !in T + [first] && second.buf !in Buffers(T + [first])
  {}

  ghost predicate DistinctIds(ws: seq<Window>) {
    forall i, j :: 0 <= i < j < |ws| ==> ws[i].kind.id != ws[j].kind.id
  }

  /** The windows look like `qs`, each with the border that its rank calls for. */
  ghost predicate Worn(ws: seq<Window>, qs: seq<Pane>, ps: seq<Pane>) {
    && |ps| == |qs| == |ws| && AllValid(qs)
    && forall i :: 0 <= i < |ws| ==> ps[i] == Edged(ws[i].kind.activeBorder, qs[i], i == |ws| - 1)
  }

  lemma WornTwice(ws: seq<Window>, qs: seq<Pane>, ps: seq<Pane>)
    requires Worn(ws, qs, ps)
    ensures Worn(ws, ps, ps)
  {
    hide Edged;
    forall i | 0 <= i < |ws| ensures ps[i].Valid() && ps[i] == Edged(ws[i].kind.activeBorder, ps[i], i == |ws| - 1) {
      EdgedTwice(ws[i].kind.activeBorder, qs[i], i == |ws| - 1, i == |ws| - 1);
    }
  }

  lemma EdgedIdle(w: Window, p: Pane)
    requires p.Valid()
    ensures !w.kind.activeBorder ==> Edged(w.kind.activeBorder, p, true) == Edged(w.kind.activeBorder, p, false) == p
    ensures w.kind.activeBorder ==> Edged(w.kind.activeBorder, p, true) == p.BorderOn()
    ensures w.kind.activeBorder ==> Edged(w.kind.activeBorder, p, false) == p.BorderOff()
  {}

  lemma SameArea(p: Pane, q: Pane)
    requires p.h == q.h && p.w == q.w
    ensures Area(p) == Area(q)
  {}

  lemma CloseWorn(S: seq<Window>, P: seq<Pane>)
    requires Worn(S, P, P) && DistinctIds(S) && S != []
    ensures var T, Q := S[..|S| - 1], P[..|P| - 1];
            && |P| == |S| && DistinctIds(T) && AllValid(Q)
            && Worn(T, Q, if Q == [] then Q else Q[..|Q| - 1] + [Edged(T[|T| - 1].kind.activeBorder, Q[|Q| - 1], true)])
  {
    hide Edged;
  }

  lemma MovedWorn(S: seq<Window>, P: seq<Pane>, dy: int, dx: int)
    requires Worn(S, P, P) && S != []
    ensures var p := P[|P| - 1]; var q := Moved(p, dy, dx);
            && q.Valid() && q.h == p.h && q.w == p.w && p.h <= 17 && p.w <= 78
            && Worn(S, P[..|P| - 1] + [q], P[..|P| - 1] + [q])
    ensures S[..|S| - 1] + [S[|S| - 1]] == S
  {
    var p := P[|P| - 1];
    var q := Moved(p, dy, dx);
    EdgedMoved(S[|S| - 1].kind.activeBorder, p, true, q.y, q.x);
    hide Edged;
  }

  lemma PromoteWorn(S: seq<Window>, P: seq<Pane>, k: nat, Q: seq<Pane>)
    requires Worn(S, P, P) && k < |S| && DistinctIds(S)
    requires Q == P[..|P| - 1] + [Edged(S[|S| - 1].kind.activeBorder, P[|P| - 1], false)]
    ensures Worn(Promote(S, k), Promote(P, k), Q[..k] + Q[k + 1..] + [Edged(S[k].kind.activeBorder, Q[k], true)])
    ensures DistinctIds(Promote(S, k))
  {
    hide Edged, Pane.Valid;
    var n := |S|;
    forall i | 0 <= i < n
      ensures Edged(S[i].kind.activeBorder, Q[i], true) == Edged(S[i].kind.activeBorder, P[i], true)
      ensures i != k ==> Q[i] == Edged(S[i].kind.activeBorder, P[i], false)
    {
      if i == n - 1 { EdgedTwice(S[i].kind.activeBorder, P[i], false, true); }
    }
  }

  predicate TopStandsAlone(ws: seq<Window>) {
    ws != [] && ws[|ws| - 1].kind.dontOverlay
  }

  predicate MenuOnTop(ws: seq<Window>) {
    ws != [] && ws[|ws| - 1].kind.optionMenu
  }

  lemma SwapWorn(S: seq<Window>, P: seq<Pane>)
    requires Worn(S, P, P) && |S| >= 2 && DistinctIds(S)
    ensures var n, T, Q := |S|, S[..|S| - 1][..|S| - 2], P[..|P| - 1][..|P| - 2];
            var first, second := S[n - 1], S[n - 2];
            var ps := Q + [Edged(first.kind.activeBorder, P[n - 1], false)] + [Edged(second.kind.activeBorder, P[n - 2], true)];
            && Swapped(S) == T + [first] + [second] && DistinctIds(Swapped(S))
            && Worn(Swapped(S), Swapped(P), ps)
  {
    hide Edged, Pane.Valid;
  }

  /** Borders set twice count once. */
  lemma SwapChain(S: seq<Window>, Q: seq<Pane>, M: seq<Pane>, ps: seq<Pane>)
    requires Worn(S, Q, M) && Worn(Swapped(S), Swapped(M), ps)
    ensures Worn(Swapped(S), Swapped(Q), ps)
  {
    hide Edged, Pane.Valid;
    var n := |S|;
    forall i | 0 <= i < n
      ensures Swapped(Q)[i].Valid()
      ensures ps[i] == Edged(Swapped(S)[i].kind.activeBorder, Swapped(Q)[i], i == n - 1)
    {
      var j := if i < n - 2 || n == 1 then i else if i == n - 2 then n - 1 else n - 2;
      EdgedTwice(S[j].kind.activeBorder, Q[j], j == n - 1, i == n - 1);
    }
  }

  /** The windows S, looking like Q, without the top one if `drop`, and then the two
      topmost exchanged. */
  ghost predicate SwappedTo(S: seq<Window>, Q: seq<Pane>, drop: bool, ws: seq<Window>, ps: seq<Pane>) {
    match ws
    case _ =>
      |S| == |Q| && (drop ==> S != []) &&
      ws == Swapped(TopOff(S, drop)) && Worn(ws, Swapped(TopOff(Q, drop)), ps)
  }

  lemma PromoteChain(S: seq<Window>, Q: seq<Pane>, M: seq<Pane>, k: nat, ps: seq<Pane>)
    requires Worn(S, Q, M) && k < |S| && Worn(Promote(S, k), Promote(M, k), ps)
    ensures Worn(Promote(S, k), Promote(Q, k), ps)
  {
    hide Edged, Pane.Valid;
    var n := |S|;
    forall i | 0 <= i < n
      ensures Promote(Q, k)[i].Valid()
      ensures ps[i] == Edged(Promote(S, k)[i].kind.activeBorder, Promote(Q, k)[i], i == n - 1)
    {
      var j := if i < k then i else if i < n - 1 then i + 1 else k;
      assert Promote(M, k)[i] == M[j] && Promote(Q, k)[i] == Q[j] && Promote(S, k)[i] == S[j];
      EdgedTwice(S[j].kind.activeBorder, Q[j], j == n - 1, i == n - 1);
    }
  }

  lemma CloseChain(S: seq<Window>, Q: seq<Pane>, M: seq<Pane>, ps: seq<Pane>)
    requires Worn(S, Q, M) && S != [] && Worn(S[..|S| - 1], M[..|S| - 1], ps)
    ensures Worn(S[..|S| - 1], Q[..|S| - 1], ps)
  {
    hide Edged, Pane.Valid;
    var m := |S| - 1;
    forall i | 0 <= i < m
      ensures ps[i] == Edged(S[i].kind.activeBorder, Q[i], i == m - 1)
    {
      assert M[..m][i] == M[i] && S[..m][i] == S[i];
      EdgedTwice(S[i].kind.activeBorder, Q[i], false, i == m - 1);
    }
  }

  lemma TopPromoted(S: seq<Window>, P: seq<Pane>)
    requires S != [] && Worn(S, P, P)
    ensures Promote(S, |S| - 1) == S && Worn(Promote(S, |S| - 1), Promote(P, |S| - 1), P)
  {
    assert Promote(P, |P| - 1) == P;
  }

  lemma PushChain(S: seq<Window>, Q: seq<Pane>, M: seq<Pane>, win: Window, p: Pane, ps: seq<Pane>)
    requires Worn(S, Q, M) && Worn(S + [win], M + [p], ps)
    ensures Worn(S + [win], Q + [p], ps)
  {
    hide Edged, Pane.Valid;
    var n := |S|;
    assert (M + [p])[n] == p;
    forall i | 0 <= i < n
      ensures ps[i] == Edged(S[i].kind.activeBorder, Q[i], false)
    {
      assert (M + [p])[i] == M[i] && (S + [win])[i] == S[i];
      EdgedTwice(S[i].kind.activeBorder, Q[i], i == n - 1, false);
    }
  }

  lemma PushWorn(S: seq<Window>, Q: seq<Pane>, M: seq<Pane>, win: Window, p: Pane)
    requires Worn(S, Q, M) && p.Valid() && DistinctIds(S) && forall w :: w in S ==> w.kind.id != win.kind.id
    ensures DistinctIds(S + [win])
    ensures var N := if M == [] then M else M[..|M| - 1] + [Edged(S[|S| - 1].kind.activeBorder, M[|M| - 1], false)];
            Worn(S + [win], Q + [p], N + [Edged(win.kind.activeBorder, p, true)])
  {
    hide Edged, Pane.Valid;
    if S != [] { EdgedTwice(S[|S| - 1].kind.activeBorder, Q[|Q| - 1], true, false); }
  }

  lemma TakeChain(S: seq<Window>, Q: seq<Pane>, M: seq<Pane>, k: nat, ps: seq<Pane>)
    requires Worn(S, Q, M) && k < |S| && Worn(S[..k] + S[k + 1..], M[..k] + M[k + 1..], ps)
    ensures Worn(S[..k] + S[k + 1..], Q[..k] + Q[k + 1..], ps)
  {
    hide Edged, Pane.Valid;
    var n, T, R := |S| - 1, S[..k] + S[k + 1..], Q[..k] + Q[k + 1..];
    forall i | 0 <= i < n
      ensures R[i].Valid() && ps[i] == Edged(T[i].kind.activeBorder, R[i], i == n - 1)
    {
      var j := if i < k then i else i + 1;
      assert T[i] == S[j] && R[i] == Q[j] && (M[..k] + M[k + 1..])[i] == M[j];
      EdgedTwice(S[j].kind.activeBorder, Q[j], j == n, i == n - 1);
    }
  }

  /** The windows S, looking like Q, without the one of `id`, which is window k of
      them, or all of them if k is -1. */
  ghost predicate ClosedTo(S: seq<Window>, Q: seq<Pane>, id: int, k: int, ws: seq<Window>, ps: seq<Pane>) {
    match ws
    case _ =>
      |S| == |Q| && -1 <= k < |S| &&
      if k < 0 then ws == S && Worn(ws, Q, ps) && forall w :: w in S ==> w.kind.id != id
      else S[k].kind.id == id && ws == S[..k] + S[k + 1..] && Worn(ws, Q[..k] + Q[k + 1..], ps)
  }

  lemma ClosedChain(S: seq<Window>, Q: seq<Pane>, M: seq<Pane>, id: int, k: int, ws: seq<Window>, ps: seq<Pane>)
    requires Worn(S, Q, M) && ClosedTo(S, M, id, k, ws, ps)
    ensures ClosedTo(S, Q, id, k, ws, ps)
  {
    hide Edged;
    if k >= 0 {
      TakeChain(S, Q, M, k, ps);
    } else {
      forall i | 0 <= i < |S| ensures ps[i] == Edged(S[i].kind.activeBorder, Q[i], i == |S| - 1) {
        EdgedTwice(S[i].kind.activeBorder, Q[i], i == |S| - 1, i == |S| - 1);
      }
    }
  }

  /** The window of that kind's id is in front, if S has one, which is then window k;
      else `win` opened with the look p and k is -1. */
  ghost predicate LoadedTo(S: seq<Window>, Q: seq<Pane>, kind: Kind, p: Pane, k: int, win: Window?, ws: seq<Window>, ps: seq<Pane>) {
    match ws
    case _ =>
      |S| == |Q| && -1 <= k < |S| &&
      if k >= 0 then S[k].kind.id == kind.id && ws == Promote(S, k) && Worn(ws, Promote(Q, k), ps)
      else
        && win != null && win.kind == kind && (forall v :: v in S ==> v.kind.id != kind.id)
        && ws == S + [win] && Worn(ws, Q + [p], ps)
  }

  lemma LoadedChain(S: seq<Window>, Q: seq<Pane>, M: seq<Pane>, kind: Kind, p: Pane, k: int, win: Window?, ws: seq<Window>, ps: seq<Pane>)
    requires Worn(S, Q, M) && LoadedTo(S, M, kind, p, k, win, ws, ps)
    ensures LoadedTo(S, Q, kind, p, k, win, ws, ps)
  {
    hide Worn, Promote;
    WornLooks(S, Q, M);
    if k >= 0 { PromoteChain(S, Q, M, k, ps); } else { PushChain(S, Q, M, win, p, ps); }
  }

  /** The look of the new window on top. */
  lemma LoadedTop(S: seq<Window>, Q: seq<Pane>, kind: Kind, p: Pane, k: int, win: Window?, ws: seq<Window>, ps: seq<Pane>)
    requires LoadedTo(S, Q, kind, p, k, win, ws, ps) && k < 0
    ensures ws != [] && |ps| == |ws| && win != null && ws[|ws| - 1] == win && win.kind == kind
    ensures var q := ps[|ps| - 1]; q.h == p.h && q.w == p.w && q.y == p.y && q.x == p.x
  {
    hide Edged;
  }

  lemma DestroyChain(S: seq<Window>, Q: seq<Pane>, k: nat, M: seq<Pane>, ps: seq<Pane>)
    requires |Q| == |S| && k < |S| && Worn(Promote(S, k), Promote(Q, k), M)
    requires Worn(Promote(S, k)[..|S| - 1], M[..|S| - 1], ps)
    ensures Promote(S, k)[..|S| - 1] == S[..k] + S[k + 1..]
    ensures Worn(S[..k] + S[k + 1..], Q[..k] + Q[k + 1..], ps)
  {
    CloseChain(Promote(S, k), Promote(Q, k), M, ps);
    assert Promote(Q, k)[..|S| - 1] == Q[..k] + Q[k + 1..];
  }

  /** What S begins with, and nothing further up in S is among it. */
  ghost predicate Begins(ws: seq<Window>, S: seq<Window>) {
    match ws
    case _ => |ws| <= |S| && forall i :: 0 <= i < |S| ==> if i < |ws| then S[i] == ws[i] else S[i] !in ws
  }

  /** How many windows are left once those that must not be overlaid are gone. */
  function Kept(S: seq<Window>): (n: nat)
    ensures n <= |S|
  {
    if TopStandsAlone(S) then Kept(S[..|S| - 1]) else |S|
  }

  // ----------------------------------------------------------- one window

  lemma LayeredFacts(base: Frame, ws: seq<Window>, ps: seq<Pane>)
    requires Layered(base, ws, ps)
    ensures |ps| == |ws| && Apart(ws) && AllValid(ps)
    ensures forall i :: 0 <= i < |ws| ==> ws[i].w1 == ps[i] && ps[i].Valid() && Area(ps[i]) <= ws[i].buf.Length
  {}

  lemma LayeredApart(base: Frame, ws: seq<Window>, ps: seq<Pane>)
    requires Layered(base, ws, ps)
    ensures |ps| == |ws| && Apart(ws)
  {}

  lemma LayeredLast(base: Frame, ws: seq<Window>, ps: seq<Pane>)
    requires Layered(base, ws, ps) && ws != []
    ensures |ps| == |ws| && ps[|ps| - 1].Valid() && ps[|ps| - 1] == ws[|ws| - 1].w1
  {}

  /** The top window saved what the rest shows, and the rest is in order. */
  lemma LayeredTop(base: Frame, ws: seq<Window>, ps: seq<Pane>)
    requires Layered(base, ws, ps) && ws != []
    ensures |ps| == |ws|
    ensures var n, w := |ws| - 1, ws[|ws| - 1];
            && Layered(base, ws[..n], ps[..n]) && ps == ps[..n] + [w.w1] && w.w1.Valid()
            && w !in ws[..n] && w.buf !in Buffers(ws[..n])
            && SavedBelow(base, ps[..n], w.w1, w.buf[..])
  {
    var n := |ws| - 1;
    hide SavedBelow;
    assert forall i :: 0 <= i < n ==> ws[..n][i] == ws[i] && ps[..n][i] == ps[i] && ps[..n][..i] == ps[..i];
  }

  lemma LayeredLess(base: Frame, ws: seq<Window>, ps: seq<Pane>)
    requires Layered(base, ws, ps) && ws != []
    ensures |ps| == |ws| && Layered(base, ws[..|ws| - 1], ps[..|ps| - 1])
  {
    LayeredTop(base, ws, ps);
    hide Layered;
  }

  lemma LayeredPush(base: Frame, ws: seq<Window>, ps: seq<Pane>, w: Window)
    requires Layered(base, ws, ps) && w !in ws && w.buf !in Buffers(ws)
    requires w.w1.Valid() && SavedBelow(base, ps, w.w1, w.buf[..])
    ensures Layered(base, ws + [w], ps + [w.w1])
  {
    hide SavedBelow;
    var vs, qs := ws + [w], ps + [w.w1];
    assert forall i :: 0 <= i < |ws| ==> vs[i] == ws[i] && qs[i] == ps[i] && qs[..i] == ps[..i];
    assert qs[..|ps|] == ps;
    assert forall i :: 0 <= i < |ws| ==> ws[i].buf in Buffers(ws);
  }

  lemma ShownImplies(screen: array2<Cell>, base: Frame, ps: seq<Pane>)
    requires Shown(screen, base, ps) && ps != []
    ensures ShownAround(screen, base, ps) && ps == ps[..|ps| - 1] + [ps[|ps| - 1]]
  {}

  lemma Overlaying(screen: array2<Cell>, base: Frame, below: seq<Pane>, p: Pane)
    requires Shown(screen, base, below) && p.Valid()
    ensures ShownAround(screen, base, below + [p])
  {
    hide CellAt;
    assert (below + [p])[|below|] == p;
    forall r, c | OnScreen(r, c) && !p.Covers(r, c) ensures screen[r, c] == CellAt(base, below + [p], r, c) {
      PaintedOver(base, below, p, r, c);
    }
  }

  lemma Saving(screen: array2<Cell>, base: Frame, below: seq<Pane>, p: Pane, cells: seq<Cell>)
    requires Shown(screen, base, below) && p.Valid() && Area(p) <= |cells|
    requires forall r, c :: p.Covers(r, c) ==> Under(p, cells, r, c) == screen[r, c]
    ensures SavedBelow(base, below, p, cells)
  {}

  /** The saved cells are back, so the screen shows what is beneath. */
  lemma Bared(screen: array2<Cell>, base: Frame, below: seq<Pane>, p: Pane, cells: seq<Cell>)
    requires Sized(screen) && AllValid(below) && p.Valid() && AllValid(below + [p]) && SavedBelow(base, below, p, cells)
    requires forall r, c :: OnScreen(r, c) && !p.Covers(r, c) ==> screen[r, c] == CellAt(base, below + [p], r, c)
    requires Area(p) <= |cells| && forall r, c :: p.Covers(r, c) ==> screen[r, c] == Under(p, cells, r, c)
    ensures Shown(screen, base, below)
  {
    hide CellAt, Under, Area;
    forall r, c | OnScreen(r, c) ensures screen[r, c] == CellAt(base, below, r, c) {
      PaintedOver(base, below, p, r, c);
    }
  }

  lemma Reshaping(screen: array2<Cell>, base: Frame, below: seq<Pane>, p: Pane, q: Pane, cells: seq<Cell>)
    requires AllValid(below) && p.Valid() && q.Valid() && q.h == p.h && q.w == p.w && q.y == p.y && q.x == p.x
    requires SavedBelow(base, below, p, cells) && Shown(screen, base, below + [p])
    ensures SavedBelow(base, below, q, cells) && ShownAround(screen, base, below + [q])
  {
    hide CellAt, Under, Area;
    SameShape(base, below, p, q, cells);
    assert (below + [q])[|below|] == q;
  }

  // ------------------------------------------------ the stack as a value

  function Looks(ws: seq<Window>, ps: seq<Pane>): (ls: seq<Look>)
    requires |ws| == |ps|
    ensures |ls| == |ws|
  {
    seq(|ws|, i requires 0 <= i < |ws| == |ps| => Look(ws[i].kind, ps[i]))
  }

  lemma WornLooks(ws: seq<Window>, qs: seq<Pane>, ps: seq<Pane>)
    requires Worn(ws, qs, ps)
    ensures |ws| == |qs| == |ps| && AllValid(ps)
    ensures Proper(Looks(ws, qs)) && Looks(ws, ps) == Dressed(Looks(ws, qs))
  {
    hide Edged;
  }

  lemma LooksSettled(S: seq<Window>, P: seq<Pane>)
    requires |S| == |P|
    ensures Looks(S[..Kept(S)], P[..Kept(S)]) == Settled(Looks(S, P))
  {
    var n := |S| - 1;
    if TopStandsAlone(S) {
      LooksSettled(S[..n], P[..n]);
      assert Looks(S[..n], P[..n]) == Looks(S, P)[..n];
      assert S[..n][..Kept(S)] == S[..Kept(S)] && P[..n][..Kept(S)] == P[..Kept(S)];
    } else {
      assert S[..|S|] == S && P[..|S|] == P;
    }
  }

  lemma LooksPromoted(S: seq<Window>, P: seq<Pane>, k: nat)
    requires |S| == |P| && k < |S|
    ensures Looks(Promote(S, k), Promote(P, k)) == Promote(Looks(S, P), k)
  {}

  lemma LooksDropped(S: seq<Window>, P: seq<Pane>, drop: bool)
    requires |S| == |P| && (drop ==> S != [])
    ensures Looks(TopOff(S, drop), TopOff(P, drop)) == TopOff(Looks(S, P), drop)
  {}

  /** With different ids there is just one window to find. */
  lemma FindIs(S: seq<Window>, P: seq<Pane>, id: int, k: nat)
    requires |S| == |P| && DistinctIds(S) && k < |S| && S[k].kind.id == id
    ensures Find(Looks(S, P), id) == k
  {
    var j := Find(Looks(S, P), id);
    assert Looks(S, P)[k].kind == S[k].kind;
    assert j >= 0 && Looks(S, P)[j].kind == S[j].kind;
  }

  lemma FindNone(S: seq<Window>, P: seq<Pane>, id: int)
    requires |S| == |P| && forall w :: w in S ==> w.kind.id != id
    ensures Find(Looks(S, P), id) == -1
  {}

  lemma LooksPlus(S: seq<Window>, P: seq<Pane>, win: Window, p: Pane)
    requires |S| == |P|
    ensures Looks(S + [win], P + [p]) == Looks(S, P) + [Look(win.kind, p)]
  {}

  lemma LoadedIs(S: seq<Window>, P: seq<Pane>, op: Op, k: int, win: Window?, ws: seq<Window>, ps: seq<Pane>)
    requires |S| == |P| && DistinctIds(S) && op.Open? && op.Sound() && Proper(Looks(S, P))
    requires LoadedTo(S, P, op.kind, Placed(op.h, op.w, op.y, op.x, op.text), k, win, ws, ps)
    ensures |ws| == |ps| && Looks(ws, ps) == Opened(Looks(S, P), op)
  {
    var p := Placed(op.h, op.w, op.y, op.x, op.text);
    hide DistinctIds, Worn, Looks, Find, Dressed, Promote, Placed, Proper, Pane.Valid;
    if k >= 0 {
      FindIs(S, P, op.kind.id, k);
      ForwardEffect(S, P, k, ws, ps);
    } else {
      LooksPlus(S, P, win, p);
      FindNone(S, P, op.kind.id);
      WornLooks(ws, P + [p], ps);
    }
  }

  lemma OpenEffect(S: seq<Window>, P: seq<Pane>, op: Op, k: int, win: Window?, ws: seq<Window>, ps: seq<Pane>)
    requires |S| == |P| && DistinctIds(S) && op.Open? && op.Sound() && Proper(Looks(S, P))
    requires LoadedTo(S[..Kept(S)], P[..Kept(S)], op.kind, Placed(op.h, op.w, op.y, op.x, op.text), k, win, ws, ps)
    ensures |ws| == |ps| && Looks(ws, ps) == Effect(Looks(S, P), op)
  {
    assert DistinctIds(S[..Kept(S)]);
    hide DistinctIds, Worn, Looks, Find, Dressed, Promote, Placed, Kept, Opened, LoadedTo;
    LooksSettled(S, P);
    LoadedIs(S[..Kept(S)], P[..Kept(S)], op, k, win, ws, ps);
  }

  lemma CloseEffect(S: seq<Window>, P: seq<Pane>, ws: seq<Window>, ps: seq<Pane>)
    requires |S| == |P| && Proper(Looks(S, P))
    requires ws == TopOff(S, S != []) && Worn(ws, TopOff(P, S != []), ps)
    ensures |ws| == |ps| && Looks(ws, ps) == Effect(Looks(S, P), Close)
  {
    hide Worn, Dressed, Looks;
    LooksDropped(S, P, S != []);
    WornLooks(ws, TopOff(P, S != []), ps);
  }

  lemma LooksLess(S: seq<Window>, P: seq<Pane>, k: nat)
    requires |S| == |P| && k < |S| && Proper(Looks(S, P))
    ensures Proper(Looks(S[..k] + S[k + 1..], P[..k] + P[k + 1..]))
    ensures Dressed(Looks(S[..k] + S[k + 1..], P[..k] + P[k + 1..])) == Less(Looks(S, P), k)
  {
    hide Dressed, Pane.Valid;
    assert Looks(S[..k] + S[k + 1..], P[..k] + P[k + 1..]) == Looks(S, P)[..k] + Looks(S, P)[k + 1..];
  }

  lemma ClosedIs(S: seq<Window>, P: seq<Pane>, id: int, k: int, ws: seq<Window>, ps: seq<Pane>)
    requires |S| == |P| && Proper(Looks(S, P)) && DistinctIds(S) && ClosedTo(S, P, id, k, ws, ps)
    ensures |ws| == |ps| && Looks(ws, ps) == Closed(Looks(S, P), id)
  {
    hide Dressed, Worn, Less, DistinctIds, Proper, Looks, Find;
    if k < 0 {
      FindNone(S, P, id);
      WornLooks(ws, P, ps);
    } else {
      FindIs(S, P, id, k);
      LooksLess(S, P, k);
      WornLooks(ws, P[..k] + P[k + 1..], ps);
    }
  }

  lemma DroppedDistinct(S: seq<Window>, P: seq<Pane>, drop: bool)
    requires |S| == |P| && (drop ==> S != []) && DistinctIds(S) && Proper(Looks(S, P))
    ensures DistinctIds(TopOff(S, drop)) && |TopOff(S, drop)| == |TopOff(P, drop)|
    ensures Looks(TopOff(S, drop), TopOff(P, drop)) == WithoutTop(Looks(S, P), drop)
  {
    hide Pane.Valid;
    LooksDropped(S, P, drop);
  }

  lemma CloseIdEffect(S: seq<Window>, P: seq<Pane>, id: int, k: int, ws: seq<Window>, ps: seq<Pane>)
    requires |S| == |P| && Proper(Looks(S, P)) && DistinctIds(S)
    requires ClosedTo(TopOff(S, MenuOnTop(S)), TopOff(P, MenuOnTop(S)), id, k, ws, ps)
    ensures |ws| == |ps| && Looks(ws, ps) == Effect(Looks(S, P), CloseId(id))
  {
    var d := MenuOnTop(S);
    assert d == OptionMenu(Looks(S, P)) && (d ==> S != []);
    hide Dressed, Worn, DistinctIds, Proper, Looks, Closed, ClosedTo, TopOff, WithoutTop, OptionMenu, MenuOnTop;
    DroppedDistinct(S, P, d);
    ClosedIs(TopOff(S, d), TopOff(P, d), id, k, ws, ps);
  }

  lemma ForwardEffect(S: seq<Window>, P: seq<Pane>, k: nat, ws: seq<Window>, ps: seq<Pane>)
    requires |S| == |P| && Proper(Looks(S, P)) && k < |S|
    requires ws == Promote(S, k) && Worn(ws, Promote(P, k), ps)
    ensures |ws| == |ps| && Looks(ws, ps) == Fronted(Looks(S, P), k) == Effect(Looks(S, P), Forward(k))
  {
    hide Worn, Dressed, Promote, Looks;
    LooksPromoted(S, P, k);
    WornLooks(ws, Promote(P, k), ps);
  }

  lemma SwapEffect(S: seq<Window>, P: seq<Pane>, ws: seq<Window>, ps: seq<Pane>)
    requires |S| == |P| && Proper(Looks(S, P)) && DistinctIds(S)
    requires SwappedTo(S, P, TopStandsAlone(S), ws, ps)
    ensures |ws| == |ps| && Looks(ws, ps) == Effect(Looks(S, P), Swap)
  {
    hide Worn, Swapped, Promote, DistinctIds, Dressed;
    var d := TopStandsAlone(S);
    assert d == StandsAlone(Looks(S, P));
    DroppedDistinct(S, P, d);
    ExchangedIs(TopOff(S, d), TopOff(P, d), ws, ps);
  }

  lemma ExchangedIs(S: seq<Window>, P: seq<Pane>, ws: seq<Window>, ps: seq<Pane>)
    requires |S| == |P| && Proper(Looks(S, P)) && ws == Swapped(S) && Worn(ws, Swapped(P), ps)
    ensures |ws| == |ps| && Looks(ws, ps) == Exchanged(Looks(S, P))
  {
    hide Worn, Dressed, Promote, Looks, Proper;
    if |S| >= 2 {
      LooksPromoted(S, P, |S| - 2);
    }
    WornLooks(ws, Swapped(P), ps);
  }

  lemma MoveEffect(S: seq<Window>, P: seq<Pane>, dy: int, dx: int, ps: seq<Pane>)
    requires |S| == |P| && Proper(Looks(S, P)) && S != [] && Movable(S[|S| - 1].kind, P[|P| - 1], dy, dx)
    requires ps == P[..|P| - 1] + [Moved(P[|P| - 1], dy, dx)]
    ensures Looks(S, ps) == Effect(Looks(S, P), Move(dy, dx))
  {
    hide Movable, Moved, Proper;
  }

  /** A stack in order is dressed already. */
  lemma TidyFacts(S: seq<Window>, P: seq<Pane>)
    requires Worn(S, P, P)
    ensures |S| == |P| && Proper(Looks(S, P))
  {}

  lemma PanesOfLooks(S: seq<Window>, P: seq<Pane>)
    requires |S| == |P| && AllValid(P)
    ensures Proper(Looks(S, P)) && Panes(Looks(S, P)) == P
  {}

  /** Only windows of before and new ones. */
  twostate predicate FromOld(new ws: seq<Window>, was: seq<Window>)
    reads ws`buf
  {
    match ws case _ => forall i :: 0 <= i < |ws| ==> ws[i] in was || (fresh(ws[i]) && fresh(ws[i].buf))
  }

  // ------------------------------------------------------------ the stack

  class Manager {
    const screen: array2<Cell>
    var stack: seq<Window>           // bottom to top, without the main entry
    ghost var panes: seq<Pane>       // what the windows of the stack look like
    ghost const base: Frame          // the picture under all windows

    /** Of the windows with an active border just the top one shows it, and no
        two windows stand for the same thing. */
    ghost predicate Tidy()
      reads this
    {
      Worn(stack, panes, panes) && DistinctIds(stack)
    }

    ghost predicate Valid()
      reads this, screen, stack, Buffers(stack)
    {
      Layered(base, stack, panes) && Shown(screen, base, panes) && Tidy()
    }

    constructor (base: Frame)
      ensures Valid() && stack == [] && this.base == base && fresh(screen)
    {
      screen := new Cell[ROWS, COLS]((y, x) => if OnScreen(y, x) then base[y][x] else 0);
      stack, panes, this.base := [], [], base;
    }

    /** `Shutdown[idx]`; South differs from Zero only in refreshing as it goes. */
    method Shutdown(win: Window)
      requires Sized(screen) && win.w1.Valid() && Area(win.w1) <= win.buf.Length
      modifies screen
      ensures Restored(screen, win.w1, win.buf[..])
    {
      if win.kind.idx == 1 {
        ShutdownWindowGravityNorth(screen, win.w1, win.buf);
      } else if win.kind.idx == 2 {
        ShutdownWindowGravityWest(screen, win.w1, win.buf);
      } else {
        ShutdownWindowGravityZero(screen, win.w1, win.buf);
      }
    }

    /** `SaveUnders`: copy the cells that the window is going to cover. */
    method SaveUnders(win: Window, alloc: bool)
      requires Sized(screen) && win.w1.Valid()
      requires !alloc ==> Area(win.w1) <= win.buf.Length
      modifies win`buf, win.buf
      ensures if alloc then fresh(win.buf) else win.buf == old(win.buf)
      ensures Area(win.w1) <= win.buf.Length
      ensures forall r, c :: win.w1.Covers(r, c) ==> Under(win.w1, win.buf[..], r, c) == screen[r, c]
    {
      var p := win.w1;
      if alloc {
        assert (p.h + 1) * (p.w + 1) == p.h * p.w + p.h + p.w + 1;
        win.buf := new Cell[(p.h + 1) * (p.w + 1)];
      }
      Grab(screen, p, win.buf);
    }

    /** Put back what the top window covers. */
    method Uncover(win: Window, inOrder: bool)
      requires Layered(base, stack, panes) && stack != [] && win == stack[|stack| - 1] && |panes| == |stack|
      requires ShownAround(screen, base, panes)
      modifies screen
      ensures Layered(base, stack, panes) && Shown(screen, base, panes[..|panes| - 1])
    {
      LayeredTop(base, stack, panes);
      assert Sized(screen) && Area(win.w1) <= win.buf.Length && AllValid(panes) && AllValid(panes[..|panes| - 1]);
      hide Layered, SavedBelow, CellAt, Under, Area, Apart, AllValid;
      ghost var B := Buffers(stack);
      if inOrder { ShutdownWindowGravityZero(screen, win.w1, win.buf); } else { Shutdown(win); }
      Bared(screen, base, panes[..|panes| - 1], win.w1, win.buf[..]);
    }

    /** The lowest n windows are what is left of the stack. */
    method Keep(n: nat)
      requires n <= |stack| && n <= |panes|
      requires Layered(base, stack[..n], panes[..n]) && Shown(screen, base, panes[..n])
      modifies this`stack, this`panes
      ensures Layered(base, stack, panes) && Shown(screen, base, panes)
      ensures stack == old(stack)[..n] && panes == old(panes)[..n]
    {
      hide Layered, Shown;
      ghost var B := Buffers(stack[..n]);
      stack, panes := stack[..n], panes[..n];
      assert Buffers(stack) == B;
    }

    /** Take the top window off the screen and off the stack. */
    method Lower(inOrder: bool) returns (win: Window)
      requires Layered(base, stack, panes) && stack != []
      requires Shown(screen, base, panes) || ShownAround(screen, base, panes)
      modifies this`stack, this`panes, screen
      ensures Layered(base, stack, panes) && Shown(screen, base, panes)
      ensures win == old(stack[|stack| - 1])
      ensures stack == old(stack[..|stack| - 1]) && panes == old(panes[..|panes| - 1])
    {
      LayeredLess(base, stack, panes);
      hide Layered, Shown, ShownAround;
      if Shown(screen, base, panes) { ShownImplies(screen, base, panes); }
      win := stack[|stack| - 1];
      Uncover(win, inOrder);
      LayeredLess(base, stack, panes);
      Keep(|stack| - 1);
    }

    /** Saving does not touch the windows on the stack. */
    method Stash(win: Window, alloc: bool)
      requires Layered(base, stack, panes) && Sized(screen)
      requires win !in stack && win.w1.Valid() && win.buf !in Buffers(stack)
      requires !alloc ==> Area(win.w1) <= win.buf.Length
      modifies win`buf, win.buf
      ensures Layered(base, stack, panes)
      ensures win.buf !in Buffers(stack) && Area(win.w1) <= win.buf.Length
      ensures forall r, c :: win.w1.Covers(r, c) ==> Under(win.w1, win.buf[..], r, c) == screen[r, c]
      ensures if alloc then fresh(win.buf) else win.buf == old(win.buf)
    {
      hide SavedBelow, Area, Under;
      assert forall w :: w in stack ==> w.buf in Buffers(stack);
      SaveUnders(win, alloc);
      forall i | 0 <= i < |stack|
        ensures stack[i].buf == old(stack[i].buf) && stack[i].buf[..] == old(stack[i].buf[..])
      {
        assert stack[i] in stack;
      }
    }

    /** Save what the window is going to cover and push it. */
    method Push(win: Window, alloc: bool)
      requires Layered(base, stack, panes) && Shown(screen, base, panes)
      requires win !in stack && win.w1.Valid() && win.buf !in Buffers(stack)
      requires !alloc ==> Area(win.w1) <= win.buf.Length
      modifies this`stack, this`panes, win`buf, win.buf
      ensures Layered(base, stack, panes) && ShownAround(screen, base, panes)
      ensures stack == old(stack) + [win] && panes == old(panes) + [win.w1]
      ensures if alloc then fresh(win.buf) else win.buf == old(win.buf)
    {
      assert Sized(screen);
      hide Layered, Shown, ShownAround, SavedBelow, Area, Under;
      Stash(win, alloc);
      Saving(screen, base, panes, win.w1, win.buf[..]);
      LayeredPush(base, stack, panes, win);
      Overlaying(screen, base, panes, win.w1);
      ghost var B := Buffers(stack + [win]);
      stack, panes := stack + [win], panes + [win.w1];
    }

    /** `BorderOn` or `BorderOff` on the top window, in memory only. */
    method SetBorder(win: Window, on: bool)
      requires Layered(base, stack, panes) && Shown(screen, base, panes)
      requires stack != [] && win == stack[|stack| - 1]
      modifies this`panes, win`w1
      ensures Layered(base, stack, panes) && ShownAround(screen, base, panes)
      ensures panes == old(panes[..|panes| - 1]) + [Edged(win.kind.activeBorder, old(win.w1), on)]
    {
      LayeredTop(base, stack, panes);
      assert AllValid(panes[..|panes| - 1]);
      hide Layered, Shown, ShownAround, SavedBelow;
      ghost var n := |stack| - 1;
      ghost var below, p := panes[..n], win.w1;
      win.w1 := Edged(win.kind.activeBorder, win.w1, on);
      Reshaping(screen, base, below, p, win.w1, win.buf[..]);
      LayeredPush(base, stack[..n], below, win);
      assert stack == stack[..n] + [win];
      ghost var B := Buffers(stack);
      panes := below + [win.w1];
    }

    /** Repaint the top window. */
    method Refresh(win: Window)
      requires Layered(base, stack, panes) && ShownAround(screen, base, panes)
      requires stack != [] && win == stack[|stack| - 1]
      modifies screen
      ensures Layered(base, stack, panes) && Shown(screen, base, panes)
    {
      LayeredTop(base, stack, panes);
      ghost var below := panes[..|panes| - 1];
      hide Layered, SavedBelow, CellAt;
      ghost var B := Buffers(stack);
      Paint(screen, win.w1);
      forall r, c | OnScreen(r, c) ensures screen[r, c] == CellAt(base, panes, r, c) {
        PaintedOver(base, below, win.w1, r, c);
      }
    }

    /** Put a window on the stack and on the screen, on top of all others. */
    method Raise(win: Window, alloc: bool)
      requires Layered(base, stack, panes) && Shown(screen, base, panes)
      requires win !in stack && win.w1.Valid() && win.buf !in Buffers(stack)
      requires !alloc ==> Area(win.w1) <= win.buf.Length
      modifies this`stack, this`panes, screen, win`buf, win.buf
      ensures Layered(base, stack, panes) && Shown(screen, base, panes)
      ensures stack == old(stack) + [win] && panes == old(panes) + [win.w1]
      ensures if alloc then fresh(win.buf) else win.buf == old(win.buf)
    {
      hide Layered, Shown, ShownAround;
      Push(win, alloc);
      Refresh(win);
    }

    /** Change a window that is off the stack. */
    method SetPane(win: Window, p: Pane)
      requires Layered(base, stack, panes) && win !in stack
      modifies win`w1
      ensures Layered(base, stack, panes) && win.w1 == p
    {
      hide SavedBelow;
      win.w1 := p;
    }

    /** Give the top window its border, if it has one, and repaint it. */
    method Crown(top: Window)
      requires Layered(base, stack, panes) && Shown(screen, base, panes)
      requires stack != [] && top == stack[|stack| - 1]
      modifies this`panes, screen, top`w1
      ensures Layered(base, stack, panes) && Shown(screen, base, panes)
      ensures |old(panes)| == |stack|
      ensures panes == old(panes[..|panes| - 1]) + [Edged(top.kind.activeBorder, old(panes[|panes| - 1]), true)]
    {
      hide Layered, Shown, ShownAround, Edged;
      LayeredLast(base, stack, panes);
      EdgedIdle(top, top.w1);
      assert panes == panes[..|panes| - 1] + [panes[|panes| - 1]];
      if top.kind.activeBorder {
        SetBorder(top, true);
        Refresh(top);
      }
    }

    /** `LoadPrevLevel`: close the top window, if there is one. */
    method LoadPrevLevel()
      requires Valid()
      modifies this`stack, this`panes, screen, stack`w1
      ensures Valid()
      ensures if old(stack) == [] then stack == [] else
                && stack == old(stack[..|stack| - 1])
                && Worn(stack, old(panes[..|panes| - 1]), panes)
    {
      if stack != [] {
        CloseWorn(stack, panes);
        ghost var Q := panes[..|panes| - 1];
        hide Layered, Shown, ShownAround, Edged, Worn, DistinctIds, AllValid;
        var win := Lower(false);
        if stack != [] { Crown(stack[|stack| - 1]); }
        WornTwice(stack, Q, panes);
      }
    }

    /** The first loop of `BringForward`: lift every window down to inptr. */
    method LowerDownTo(inptr: Window, ghost k: nat) returns (tmp: seq<Window>)
      requires Layered(base, stack, panes) && k < |stack| && stack[k] == inptr
      requires Shown(screen, base, panes) || ShownAround(screen, base, panes)
      modifies this`stack, this`panes, screen
      ensures Layered(base, stack, panes) && Shown(screen, base, panes)
      ensures k <= |old(panes)| && stack == old(stack[..k]) && panes == old(panes[..k])
      ensures |tmp| == |old(stack)| - k - 1
      ensures forall i :: 0 <= i < |tmp| ==> tmp[i] == old(stack)[|old(stack)| - 1 - i]
    {
      hide Layered, Shown, ShownAround;
      LayeredFacts(base, stack, panes);
      ghost var S, Q := stack, panes;
      tmp := [];
      while stack[|stack| - 1] != inptr
        invariant k < |stack| <= |S| && stack == S[..|stack|] && panes == Q[..|stack|]
        invariant Layered(base, stack, panes) && (Shown(screen, base, panes) || ShownAround(screen, base, panes))
        invariant |tmp| == |S| - |stack| && forall i :: 0 <= i < |tmp| ==> tmp[i] == S[|S| - 1 - i]
        decreases |stack|
      {
        var w := Lower(true);
        tmp := tmp + [w];
      }
      var w := Lower(true);
    }

    /** The second loop of `BringForward`: put the windows back, last one first. */
    method RaiseAgain(tmp: seq<Window>, ghost R: seq<Window>, ghost Q: seq<Pane>)
      requires Layered(base, stack, panes) && Shown(screen, base, panes) && Spare(R, stack)
      requires |Q| == |R| == |tmp| && AllValid(Q)
      requires forall i :: 0 <= i < |tmp| ==> tmp[i] == R[|R| - 1 - i] && R[i].w1 == Q[i]
      modifies this`stack, this`panes, screen, R`buf, Buffers(R)
      ensures Layered(base, stack, panes) && Shown(screen, base, panes)
      ensures stack == old(stack) + R && panes == old(panes) + Q
      ensures forall i :: 0 <= i < |R| ==> fresh(R[i].buf)
    {
      hide Layered, Shown;
      ghost var S, P := stack, panes;
      var i := |tmp|;
      while i > 0
        invariant 0 <= i <= |tmp| && stack == S + R[..|R| - i] && panes == P + Q[..|R| - i]
        invariant Layered(base, stack, panes) && Shown(screen, base, panes)
        invariant forall j :: |R| - i <= j < |R| ==> R[j].buf == old(R[j].buf)
        invariant forall j :: 0 <= j < |R| - i ==> fresh(R[j].buf)
        invariant forall w :: w in S ==> w.buf == old(w.buf)
      {
        i := i - 1;
        ghost var d := |R| - 1 - i;
        assert tmp[i] == R[d] && R[d].w1 == Q[d];
        forall w | w in stack ensures w.buf != R[d].buf {
          if w in S { assert w.buf in old(Buffers(stack)); }
        }
        Raise(tmp[i], true);
        assert R[..d + 1] == R[..d] + [R[d]] && Q[..d + 1] == Q[..d] + [Q[d]];
      }
      assert R[..|R|] == R && Q[..|R|] == Q;
    }

    /** Take stack[k] out from under the windows above it. */
    method TakeOut(k: nat) returns (inptr: Window)
      requires Layered(base, stack, panes) && k < |stack|
      requires Shown(screen, base, panes) || ShownAround(screen, base, panes)
      modifies this`stack, this`panes, screen, stack`buf, Buffers(stack)
      ensures Layered(base, stack, panes) && Shown(screen, base, panes)
      ensures inptr == old(stack[k]) && |old(panes)| == |old(stack)| && inptr.w1 == old(panes[k])
      ensures stack == old(stack[..k] + stack[k + 1..]) && panes == old(panes[..k] + panes[k + 1..])
      ensures inptr.w1.Valid() && inptr !in stack && inptr.buf !in Buffers(stack)
      ensures OwnBuffers(old(stack))
    {
      hide Layered, Shown, ShownAround;
      LayeredFacts(base, stack, panes);
      LiftedIsSpare(stack, k);
      ghost var S, P := stack, panes;
      inptr := stack[k];
      var tmp := LowerDownTo(inptr, k);
      RaiseAgain(tmp, S[k + 1..], P[k + 1..]);
    }

    /** Before it changes its rank, the top window loses its border. */
    method Doff(top: Window)
      requires Layered(base, stack, panes) && Shown(screen, base, panes)
      requires stack != [] && top == stack[|stack| - 1]
      modifies this`panes, top`w1
      ensures Layered(base, stack, panes) && ShownAround(screen, base, panes)
      ensures |old(panes)| == |stack|
      ensures panes == old(panes[..|panes| - 1]) + [Edged(top.kind.activeBorder, old(panes[|panes| - 1]), false)]
    {
      hide Layered, Shown, ShownAround, Edged;
      LayeredLast(base, stack, panes);
      ShownImplies(screen, base, panes);
      EdgedIdle(top, top.w1);
      if top.kind.activeBorder { SetBorder(top, false); }
    }

    /** Set the border of a window that is off the stack and put it on top. */
    method RaiseEdged(win: Window, on: bool, alloc: bool)
      requires Layered(base, stack, panes) && Shown(screen, base, panes)
      requires win !in stack && win.w1.Valid() && win.buf !in Buffers(stack)
      requires !alloc ==> Area(win.w1) <= win.buf.Length
      modifies this`stack, this`panes, screen, win, win.buf
      ensures Layered(base, stack, panes) && Shown(screen, base, panes)
      ensures stack == old(stack) + [win] && panes == old(panes) + [Edged(win.kind.activeBorder, old(win.w1), on)]
      ensures if alloc then fresh(win.buf) else win.buf == old(win.buf)
    {
      hide Layered, Shown, Area, Edged;
      EdgedIdle(win, win.w1);
      if win.kind.activeBorder { SetPane(win, if on then win.w1.BorderOn() else win.w1.BorderOff()); }
      assert win.w1 == Edged(win.kind.activeBorder, old(win.w1), on);
      SameArea(old(win.w1), win.w1);
      Raise(win, alloc);
    }

    /** `BringForward`: the k-th window goes to the top, the others keep their order. */
    method BringForward(k: nat)
      requires Valid() && k < |stack|
      modifies this`stack, this`panes, screen, stack, Buffers(stack)
      ensures OwnBuffers(old(stack))
      ensures Valid()
      ensures stack == Promote(old(stack), k) && Worn(stack, Promote(old(panes), k), panes)
    {
      hide Layered, Shown, ShownAround, Edged;
      ghost var S, P := stack, panes;
      Doff(stack[|stack| - 1]);
      PromoteWorn(S, P, k, panes);
      var inptr := TakeOut(k);
      RaiseEdged(inptr, true, true);
      WornTwice(stack, Promote(P, k), panes);
    }

    /** Take the top window off, change its place, and put it back. */
    method MoveTop(dy: int, dx: int)
      requires Valid() && stack != [] && Movable(stack[|stack| - 1].kind, stack[|stack| - 1].w1, dy, dx)
      modifies this`stack, this`panes, screen, stack, Buffers(stack)
      ensures OwnBuffers(old(stack))
      ensures Valid() && stack == old(stack)
      ensures panes == old(panes[..|panes| - 1]) + [Moved(old(panes[|panes| - 1]), dy, dx)]
    {
      hide Layered, Shown, ShownAround, Area, Edged, Worn, DistinctIds, AllValid, Apart;
      LayeredLast(base, stack, panes);
      LayeredTop(base, stack, panes);
      MovedWorn(stack, panes, dy, dx);
      var win := Lower(true);
      var y, x := win.w1.y + dy, win.w1.x + dx;
      if !win.kind.keepCoordinates { y, x := CheckGeometry(win.w1.h, win.w1.w, y, x); }
      assert win.w1.(y := y, x := x) == Moved(win.w1, dy, dx);
      SameArea(win.w1, Moved(win.w1, dy, dx));
      SetPane(win, win.w1.(y := y, x := x));
      Raise(win, false);
    }

    /** `MoveWindow`: shift the top window, as far as the main window allows.
        (In the source the entry stays on the stack meanwhile.) */
    method MoveWindow(dy: int, dx: int)
      requires Valid() && stack != [] && Movable(stack[|stack| - 1].kind, stack[|stack| - 1].w1, dy, dx)
      modifies this`stack, this`panes, screen, stack, Buffers(stack)
      ensures OwnBuffers(old(stack))
      ensures Valid() && stack == old(stack)
      ensures panes == old(panes[..|panes| - 1]) + [Moved(old(panes[|panes| - 1]), dy, dx)]
      ensures var p, q := old(panes[|panes| - 1]), panes[|panes| - 1];
              q.h == p.h && q.w == p.w && q.text == p.text && Nearest(p.h, p.w, p.y + dy, p.x + dx, q.y, q.x)
    {
      hide Layered, Shown, Worn, DistinctIds, AllValid, Moved, Nearest, Movable;
      LayeredLast(base, stack, panes);
      MovedNearest(panes[|panes| - 1], dy, dx);
      MoveTop(dy, dx);
    }

    /** The second half of `NextPrev`: the two topmost windows change places. */
    method SwapTopTwo(ghost R: seq<Window>)
      requires Valid()
      requires Begins(stack, R)
      modifies this`stack, this`panes, screen, stack, Buffers(stack)
      ensures OwnBuffers(R)
      ensures Valid() && |old(panes)| == |old(stack)|
      ensures stack == Swapped(old(stack)) && Worn(stack, Swapped(old(panes)), panes)
    {
      ghost var S, P, n := stack, panes, |stack|;
      LayeredFacts(base, S, P);
      if |stack| >= 2 {
        TopTwoApart(S, S[..n - 1][..n - 2]);
        SwapWorn(S, P);
        hide Layered, Shown, ShownAround, Area, Edged, Apart, Swapped, Worn, DistinctIds, AllValid;
        var first := Lower(true);
        var second := Lower(true);
        RaiseEdged(first, false, false);
        RaiseEdged(second, true, false);
        WornTwice(stack, Swapped(P), panes);
      }
    }

    /** The same for a stack that was S, looking like P, before the top went. */
    method SwapFor(ghost S: seq<Window>, ghost P: seq<Pane>, ghost drop: bool)
      requires Valid() && |S| == |P| && (drop ==> S != [])
      requires stack == TopOff(S, drop) && Worn(stack, TopOff(P, drop), panes) && Begins(stack, S)
      modifies this`stack, this`panes, screen, stack, Buffers(stack)
      ensures OwnBuffers(S) && Valid() && SwappedTo(S, P, drop, stack, panes)
    {
      hide Layered, Shown, Worn, DistinctIds, Swapped, Apart, Begins;
      ghost var T, M := stack, panes;
      SwapTopTwo(S);
      SwapChain(T, TopOff(P, drop), M, panes);
    }

    /** Close the top window if need be. */
    method CloseIf(drop: bool)
      requires Valid() && (drop ==> stack != [])
      modifies this`stack, this`panes, screen, stack`w1
      ensures Valid() && Begins(stack, old(stack)) && stack <= old(stack) && Buffers(stack) <= old(Buffers(stack))
      ensures |old(panes)| == |old(stack)|
      ensures stack == TopOff(old(stack), drop) && Worn(stack, TopOff(old(panes), drop), panes)
    {
      LayeredApart(base, stack, panes);
      hide Layered, Shown, Worn, DistinctIds;
      if drop { LoadPrevLevel(); }
    }

    /** `NextPrev`: drop a window that must not be overlaid, then swap the top two. */
    method NextPrev()
      requires Valid()
      modifies this`stack, this`panes, screen, stack, Buffers(stack)
      ensures OwnBuffers(old(stack)) && Valid()
      ensures SwappedTo(old(stack), old(panes), TopStandsAlone(old(stack)), stack, panes)
    {
      ghost var S, P := stack, panes;
      var d := TopStandsAlone(stack);
      assert d ==> stack != [];
      hide Layered, Shown, Worn, DistinctIds, Swapped, Promote, TopStandsAlone, Apart, TopOff, Begins, SwappedTo;
      CloseIf(d);
      assert forall i :: 0 <= i < |S| ==> S[i].buf == old(S[i].buf);
      SwapFor(S, P, d);
    }

    /** `OutSomewhere`: the place of the entry for `id`, or -1. */
    method OutSomewhere(id: int) returns (k: int)
      ensures -1 <= k < |stack|
      ensures k >= 0 ==> stack[k].kind.id == id
      ensures k < 0 ==> forall w :: w in stack ==> w.kind.id != id
    {
      k := |stack| - 1;
      while k >= 0 && stack[k].kind.id != id
        invariant -1 <= k < |stack|
        invariant forall i :: k < i < |stack| ==> stack[i].kind.id != id
      {
        k := k - 1;
      }
    }

    /** The loop at the head of `LoadStack`. */
    method Settle()
      requires Valid()
      modifies this`stack, this`panes, screen, stack`w1
      ensures Valid() && |old(panes)| == |old(stack)|
      ensures stack == old(stack)[..Kept(old(stack))]
      ensures Worn(stack, old(panes)[..Kept(old(stack))], panes)
    {
      hide Layered, Shown, Worn, DistinctIds, AllValid;
      ghost var S, P, Q := stack, panes, panes;
      LayeredFacts(base, stack, panes);
      while TopStandsAlone(stack)
        invariant Valid() && |P| == |S| && |Q| == |stack| <= |S|
        invariant stack == S[..|stack|] && Q == P[..|stack|] && Kept(stack) == Kept(S)
        invariant Worn(stack, Q, panes)
        decreases |stack|
      {
        ghost var T, M := stack, panes;
        LayeredApart(base, T, M);
        LoadPrevLevel();
        CloseChain(T, Q, M, panes);
        Q := Q[..|Q| - 1];
      }
    }

    /** The second half of `LoadStack`: a window that was just drawn goes on top. */
    method OpenWindow(win: Window)
      requires Valid() && win !in stack && win.buf !in Buffers(stack) && win.w1.Valid()
      requires forall w :: w in stack ==> w.kind.id != win.kind.id
      modifies this`stack, this`panes, screen, stack`w1, win, win.buf
      ensures fresh(win.buf)
      ensures Valid() && |old(panes)| == |old(stack)|
      ensures stack == old(stack) + [win] && Worn(stack, old(panes) + [old(win.w1)], panes)
    {
      hide Layered, Shown, ShownAround, Worn, AllValid, Edged, DistinctIds, Area;
      ghost var S, P, p := stack, panes, win.w1;
      LayeredFacts(base, stack, panes);
      PushWorn(S, P, P, win, p);
      if stack != [] {
        Doff(stack[|stack| - 1]);
        Refresh(stack[|stack| - 1]);
      }
      RaiseEdged(win, true, true);
      WornTwice(stack, P + [p], panes);
    }

    /** `NewWindow` with the painting around it. */
    method NewWindow(kind: Kind, h: nat, w: nat, y0: int, x0: int, text: seq<seq<Cell>>) returns (win: Window)
      requires Valid() && 1 <= h <= 17 && 1 <= w <= 78 && (kind.keepCoordinates ==> Fits(h, w, y0, x0))
      requires |text| == h && forall i :: 0 <= i < h ==> |text[i]| == w
      requires forall v :: v in stack ==> v.kind.id != kind.id
      modifies this`stack, this`panes, screen, stack`w1
      ensures fresh(win.buf)
      ensures Valid() && |old(panes)| == |old(stack)|
      ensures fresh(win) && win.kind == kind
      ensures stack == old(stack) + [win]
      ensures Worn(stack, old(panes) + [Placed(h, w, y0, x0, text)], panes)
    {
      hide Shown, SavedBelow, Worn, DistinctIds;
      var y, x := y0, x0;
      if !kind.keepCoordinates { y, x := CheckGeometry(h, w, y0, x0); }
      win := new Window(kind, Pane(y, x, h, w, text));
      OpenWindow(win);
    }

    /** Make the k-th window the top one, if it is not already. */
    method BringUp(k: nat)
      requires Valid() && k < |stack|
      modifies this`stack, this`panes, screen, stack, Buffers(stack)
      ensures OwnBuffers(old(stack))
      ensures Valid() && |old(panes)| == |old(stack)|
      ensures stack == Promote(old(stack), k) && Worn(stack, Promote(old(panes), k), panes)
    {
      LayeredFacts(base, stack, panes);
      hide Layered, Shown, Worn, DistinctIds;
      if k < |stack| - 1 {
        BringForward(k);
      } else {
        TopPromoted(stack, panes);
      }
    }

    /** The rest of `LoadStack`: the window of that id comes to the front, or a new one opens. */
    method FrontOrNew(kind: Kind, h: nat, w: nat, y0: int, x0: int, text: seq<seq<Cell>>, ghost S: seq<Window>)
      returns (k: int, win: Window?)
      requires Valid() && 1 <= h <= 17 && 1 <= w <= 78 && (kind.keepCoordinates ==> Fits(h, w, y0, x0))
      requires |text| == h && forall i :: 0 <= i < h ==> |text[i]| == w
      requires Begins(stack, S)
      modifies this`stack, this`panes, screen, stack, Buffers(stack)
      ensures OwnBuffers(S) && (win != null ==> fresh(win.buf))
      ensures Valid() && LoadedTo(old(stack), old(panes), kind, Placed(h, w, y0, x0, text), k, win, stack, panes)
      ensures k < 0 ==> win != null && fresh(win)
    {
      hide Layered, Shown, ShownAround, Worn, AllValid, Edged, DistinctIds, Area, Promote, Placed;
      win := null;
      LayeredFacts(base, stack, panes);
      k := OutSomewhere(kind.id);
      if k >= 0 {
        BringUp(k);
      } else {
        win := NewWindow(kind, h, w, y0, x0, text);
      }
    }

    /** Settle the top, then bring to the front or open. */
    method SettleAndLoad(kind: Kind, h: nat, w: nat, y0: int, x0: int, text: seq<seq<Cell>>)
      returns (r: int, ghost k: int, win: Window?)
      requires Valid() && 1 <= h <= 17 && 1 <= w <= 78 && (kind.keepCoordinates ==> Fits(h, w, y0, x0))
      requires |text| == h && forall i :: 0 <= i < h ==> |text[i]| == w
      modifies this`stack, this`panes, screen, stack, Buffers(stack)
      ensures OwnBuffers(old(stack)) && (win != null ==> fresh(win.buf))
      ensures Valid() && |old(panes)| == |old(stack)| && (k < 0 ==> win != null && fresh(win)) && r == if k >= 0 then 0 else 2
      ensures LoadedTo(old(stack)[..Kept(old(stack))], old(panes)[..Kept(old(stack))], kind, Placed(h, w, y0, x0, text), k, win, stack, panes)
    {
      hide Layered, Shown, ShownAround, Worn, AllValid, Edged, DistinctIds, Area, Kept, Promote, Placed, LoadedTo;
      LayeredFacts(base, stack, panes);
      ghost var P := panes[..Kept(stack)];
      ghost var S := stack;
      KeptSplit(S);
      Settle();
      ghost var T, M := stack, panes;
      var at;
      at, win := FrontOrNew(kind, h, w, y0, x0, text, S);
      k := at;
      LoadedChain(T, P, M, kind, Placed(h, w, y0, x0, text), k, win, stack, panes);
      r := if at >= 0 then 0 else 2;
    }

    /** `LoadStack`: bring the window of that id to the front, or open one for it.
        `text` is what the paint function draws into the new window. */
    method LoadStack(kind: Kind, h: nat, w: nat, y0: int, x0: int, text: seq<seq<Cell>>)
      returns (r: int, ghost k: int, win: Window?)
      requires Valid() && 1 <= h <= 17 && 1 <= w <= 78 && (kind.keepCoordinates ==> Fits(h, w, y0, x0))
      requires |text| == h && forall i :: 0 <= i < h ==> |text[i]| == w
      modifies this`stack, this`panes, screen, stack, Buffers(stack)
      ensures OwnBuffers(old(stack)) && (win != null ==> fresh(win.buf))
      ensures Valid() && |old(panes)| == |old(stack)| && (k < 0 ==> win != null && fresh(win)) && r == if k >= 0 then 0 else 2
      ensures k < 0 ==> stack != [] && stack[|stack| - 1] == win && win.kind == kind && panes != []
      ensures k < 0 ==> var q := panes[|panes| - 1]; q.h == h && q.w == w && Nearest(h, w, y0, x0, q.y, q.x)
      ensures LoadedTo(old(stack)[..Kept(old(stack))], old(panes)[..Kept(old(stack))], kind, Placed(h, w, y0, x0, text), k, win, stack, panes)
    {
      LayeredFacts(base, stack, panes);
      hide Layered, Shown, Worn, AllValid, DistinctIds, Kept, Placed, LoadedTo, Nearest;
      ghost var T, P := stack[..Kept(stack)], panes[..Kept(stack)];
      r, k, win := SettleAndLoad(kind, h, w, y0, x0, text);
      PlacedNearest(h, w, y0, x0, text);
      if k < 0 { LoadedTop(T, P, kind, Placed(h, w, y0, x0, text), k, win, stack, panes); }
    }

    /** Close the k-th window: it comes to the top first. */
    method CloseAt(k: nat)
      requires Valid() && k < |stack|
      modifies this`stack, this`panes, screen, stack, Buffers(stack)
      ensures OwnBuffers(old(stack)) && Valid() && |old(panes)| == |old(stack)|
      ensures stack == old(stack)[..k] + old(stack)[k + 1..]
      ensures Worn(stack, old(panes)[..k] + old(panes)[k + 1..], panes)
    {
      hide Layered, Shown, Worn, DistinctIds, Promote, Apart;
      ghost var S, P := stack, panes;
      LayeredApart(base, S, P);
      PromotedIn(S, k);
      BringUp(k);
      ghost var M := panes;
      LayeredApart(base, stack, M);
      LoadPrevLevel();
      DestroyChain(S, P, k, M, panes);
    }

    /** Close the window of `id`, if there is one. */
    method CloseThe(id: int) returns (ghost k: int)
      requires Valid()
      modifies this`stack, this`panes, screen, stack, Buffers(stack)
      ensures OwnBuffers(old(stack)) && Valid() && ClosedTo(old(stack), old(panes), id, k, stack, panes)
    {
      LayeredFacts(base, stack, panes);
      hide Layered, Shown, Worn, DistinctIds, Promote;
      var i := OutSomewhere(id);
      k := i;
      if i >= 0 { CloseAt(i); }
    }

    /** The rest of `DestroyWindow`, for windows that were to look like Q. */
    method CloseFor(id: int, ghost S: seq<Window>, ghost Q: seq<Pane>) returns (ghost k: int)
      requires Valid() && Worn(stack, Q, panes)
      requires Begins(stack, S)
      modifies this`stack, this`panes, screen, stack, Buffers(stack)
      ensures OwnBuffers(S) && Valid()
      ensures ClosedTo(old(stack), Q, id, k, stack, panes)
    {
      hide Layered, Shown, Worn, DistinctIds, ClosedTo, Apart;
      ghost var T, M := stack, panes;
      k := CloseThe(id);
      ClosedChain(T, Q, M, id, k, stack, panes);
    }

    /** `DestroyWindow`: close an option menu on top of everything, then the window of
        `id`, wherever it is in the stack. */
    method DestroyWindow(id: int) returns (ghost k: int)
      requires Valid()
      modifies this`stack, this`panes, screen, stack, Buffers(stack)
      ensures OwnBuffers(old(stack)) && Valid() && |old(panes)| == |old(stack)|
      ensures var d := MenuOnTop(old(stack));
              ClosedTo(TopOff(old(stack), d), TopOff(old(panes), d), id, k, stack, panes)
    {
      ghost var S, P := stack, panes;
      var d := MenuOnTop(stack);
      assert d ==> stack != [];
      hide Layered, Shown, Worn, DistinctIds, TopOff, MenuOnTop, ClosedTo, Apart, Begins;
      CloseIf(d);
      assert forall i :: 0 <= i < |S| ==> S[i].buf == old(S[i].buf);
      k := CloseFor(id, S, TopOff(P, d));
    }

    /** Close everything: the screen is the base picture again. */
    method CloseAll()
      requires Valid()
      modifies this`stack, this`panes, screen, stack`w1
      ensures Valid() && stack == []
      ensures forall r, c :: OnScreen(r, c) ==> screen[r, c] == base[r][c]
    {
      while stack != []
        invariant Valid() && stack <= old(stack)
        decreases |stack|
      {
        hide Layered, Shown, Worn, DistinctIds;
        LoadPrevLevel();
      }
    }

    /** The stack as a value. */
    ghost function Now(): seq<Look>
      reads this
    {
      if |panes| == |stack| then Looks(stack, panes) else []
    }

    method LoadFresh(op: Op) returns (ghost k: int, win: Window?)
      requires Valid() && op.Sound() && op.Open?
      modifies this`stack, this`panes, screen, stack, Buffers(stack)
      ensures OwnBuffers(old(stack)) && FromOld(stack, old(stack)) && Valid() && |old(panes)| == |old(stack)|
      ensures var n, p := Kept(old(stack)), Placed(op.h, op.w, op.y, op.x, op.text);
              LoadedTo(old(stack)[..n], old(panes)[..n], op.kind, p, k, win, stack, panes)
    {
      ghost var S, P := stack, panes;
      LayeredFacts(base, stack, panes);
      hide Layered, Shown, Worn, DistinctIds, Kept, Placed, Buffers, OwnBuffers, LoadedTo, Apart, AllValid, Tidy;
      var r;
      r, k, win := LoadStack(op.kind, op.h, op.w, op.y, op.x, op.text);
      LoadedIn(S, P, Kept(S), op.kind, Placed(op.h, op.w, op.y, op.x, op.text), k, win, stack, panes);
    }

    /** The operations, as they change the stack seen as a value. */
    method OpenStep(op: Op)
      requires Valid() && op.Sound() && op.Open?
      modifies this`stack, this`panes, screen, stack, Buffers(stack)
      ensures Valid() && OwnBuffers(old(stack)) && FromOld(stack, old(stack))
      ensures Proper(old(Now())) && Now() == Effect(old(Now()), op)
    {
      ghost var S, P := stack, panes;
      TidyFacts(S, P);
      hide Layered, Shown, Worn, DistinctIds, Kept, Effect, Looks, Proper, Placed, Buffers, OwnBuffers, LoadedTo, FromOld;
      ghost var k;
      var win;
      k, win := LoadFresh(op);
      OpenEffect(S, P, op, k, win, stack, panes);
    }

    method CloseStep(op: Op)
      requires Valid() && op.Sound() && op.Close?
      modifies this`stack, this`panes, screen, stack, Buffers(stack)
      ensures Valid() && OwnBuffers(old(stack)) && FromOld(stack, old(stack))
      ensures Proper(old(Now())) && Now() == Effect(old(Now()), op)
    {
      ghost var S, P := stack, panes;
      TidyFacts(S, P);
      LayeredApart(base, S, P);
      DroppedIn(S, S != []);
      hide Layered, Shown, Worn, DistinctIds, Kept, Promote, Swapped, Effect, Looks, Proper, Clamp, Apart;
      LoadPrevLevel();
      LayeredApart(base, stack, panes);
      CloseEffect(S, P, stack, panes);
    }

    method CloseIdStep(op: Op)
      requires Valid() && op.Sound() && op.CloseId?
      modifies this`stack, this`panes, screen, stack, Buffers(stack)
      ensures Valid() && OwnBuffers(old(stack)) && FromOld(stack, old(stack))
      ensures Proper(old(Now())) && Now() == Effect(old(Now()), op)
    {
      ghost var S, P := stack, panes;
      TidyFacts(S, P);
      LayeredFacts(base, stack, panes);
      hide Layered, Shown, Worn, DistinctIds, Kept, Promote, Swapped, TopOff, Effect, Looks, Proper, Clamp, ClosedTo;
      ghost var k := DestroyWindow(op.id);
      DestroyedIn(S, P, MenuOnTop(S), op.id, k, stack, panes);
      CloseIdEffect(S, P, op.id, k, stack, panes);
    }

    method ForwardStep(op: Op)
      requires Valid() && op.Sound() && op.Forward?
      modifies this`stack, this`panes, screen, stack, Buffers(stack)
      ensures Valid() && OwnBuffers(old(stack)) && FromOld(stack, old(stack))
      ensures Proper(old(Now())) && Now() == Effect(old(Now()), op)
    {
      ghost var S, P := stack, panes;
      TidyFacts(S, P);
      LayeredFacts(base, stack, panes);
      hide Layered, Shown, Worn, DistinctIds, Kept, Promote, Swapped, TopOff, Effect, Looks, Proper, Clamp;
      if op.k < |stack| {
        BringForward(op.k);
        PromotedIn(S, op.k);
        ForwardEffect(S, P, op.k, stack, panes);
      } else {
        Idle(S, P, op);
      }
    }

    method SwapStep(op: Op)
      requires Valid() && op.Sound() && op.Swap?
      modifies this`stack, this`panes, screen, stack, Buffers(stack)
      ensures Valid() && OwnBuffers(old(stack)) && FromOld(stack, old(stack))
      ensures Proper(old(Now())) && Now() == Effect(old(Now()), op)
    {
      ghost var S, P := stack, panes;
      TidyFacts(S, P);
      LayeredFacts(base, stack, panes);
      hide Layered, Shown, Worn, DistinctIds, Kept, Promote, Swapped, TopOff, Effect, Looks, Proper, Clamp;
      NextPrev();
      SwappedIn(S);
      SwapEffect(S, P, stack, panes);
    }

    method MoveStep(op: Op)
      requires Valid() && op.Sound() && op.Move?
      modifies this`stack, this`panes, screen, stack, Buffers(stack)
      ensures Valid() && OwnBuffers(old(stack)) && FromOld(stack, old(stack))
      ensures Proper(old(Now())) && Now() == Effect(old(Now()), op)
    {
      ghost var S, P := stack, panes;
      TidyFacts(S, P);
      LayeredFacts(base, stack, panes);
      hide Layered, Shown, Worn, DistinctIds, Kept, Promote, Swapped, TopOff, Effect, Looks, Proper, Clamp, Movable, Moved;
      if stack != [] && Movable(stack[|stack| - 1].kind, stack[|stack| - 1].w1, op.dy, op.dx) {
        MoveWindow(op.dy, op.dx);
        MoveEffect(S, P, op.dy, op.dx, panes);
      } else {
        Idle(S, P, op);
      }
    }

    /** One operation of a user; what does not apply does nothing. */
    method Step(op: Op)
      requires Valid() && op.Sound()
      modifies this`stack, this`panes, screen, stack, Buffers(stack)
      ensures Valid() && OwnBuffers(old(stack)) && FromOld(stack, old(stack))
      ensures Proper(old(Now())) && Now() == Effect(old(Now()), op)
    {
      hide *;
      match op
      case Open(_, _, _, _, _, _) => OpenStep(op);
      case Close => CloseStep(op);
      case CloseId(_) => CloseIdStep(op);
      case Forward(_) => ForwardStep(op);
      case Swap => SwapStep(op);
      case Move(_, _) => MoveStep(op);
    }

    /** Only new windows and new buffers are added by a step. */
    method StepRenewed(op: Op)
      requires Valid() && op.Sound()
      modifies this`stack, this`panes, screen, stack, Buffers(stack)
      ensures Valid() && Renewed(stack, old(stack))
      ensures Proper(old(Now())) && Now() == Effect(old(Now()), op)
    {
      hide Effect, Now, Proper, Layered, Shown, Worn, DistinctIds;
      ghost var S := stack;
      Step(op);
      forall i | 0 <= i < |stack| ensures stack[i].buf in old(Buffers(stack)) || fresh(stack[i].buf) {
        if stack[i] in S {
          var j :| 0 <= j < |S| && S[j] == stack[i];
          assert old(S[j].buf) in old(Buffers(stack));
        }
      }
    }

    /** Any run of operations: the stack is what the operations make of it, and screen
        and saved buffers agree with it. */
    method Session(ops: seq<Op>)
      requires Valid() && forall n :: 0 <= n < |ops| ==> ops[n].Sound()
      modifies this`stack, this`panes, screen, stack, Buffers(stack)
      ensures Valid() && Renewed(stack, old(stack))
      ensures Proper(old(Now())) && Now() == EffectAll(old(Now()), ops)
      decreases |ops|
    {
      NowProper();
      if ops == [] {
        StartRenewed(stack);
      } else {
        hide Effect, Now, Proper, Layered, Shown, Worn, DistinctIds, Tidy, OwnBuffers, FromOld;
        StepRenewed(ops[0]);
        ghost var T, B := stack, Buffers(stack);
        assert forall b :: b in B ==> b in old(Buffers(stack)) || fresh(b);
        Session(ops[1..]);
        forall i | 0 <= i < |stack| ensures stack[i] in old(stack) || fresh(stack[i]) {
          if stack[i] in T {
            var j :| 0 <= j < |T| && T[j] == stack[i];
          }
        }
        assert forall i :: 0 <= i < |stack| ==> stack[i].buf in B || fresh(stack[i].buf);
      }
    }

    lemma NowProper()
      requires Valid()
      ensures Proper(Now()) && |panes| == |stack| && Panes(Now()) == panes
    {
      TidyFacts(stack, panes);
      PanesOfLooks(stack, panes);
    }

    /** The screen is the base painted with the windows, bottom to top. */
    lemma ScreenIs()
      requires Valid()
      ensures Sized(screen) && Proper(Now())
      ensures forall r, c :: OnScreen(r, c) ==> screen[r, c] == CellAt(base, Panes(Now()), r, c)
    {
      NowProper();
      hide Now, Proper, Panes, Layered, CellAt;
    }
  }

  lemma StartRenewed(S: seq<Window>)
    ensures forall i :: 0 <= i < |S| ==> S[i].buf in Buffers(S)
  {}

  /** From a bare screen through any run of operations, every cell shows what the
      operations, carried out on values, paint there. */
  method Desktop(base: Frame, ops: seq<Op>) returns (m: Manager)
    requires forall n :: 0 <= n < |ops| ==> ops[n].Sound()
    ensures m.Valid() && m.base == base && m.Now() == EffectAll([], ops)
    ensures Sized(m.screen) && forall r, c :: OnScreen(r, c) ==>
              m.screen[r, c] == CellAt(base, Panes(EffectAll([], ops)), r, c)
    ensures AllValid(Panes(EffectAll([], ops))) && forall r, c :: OnScreen(r, c) ==>
              Seen(base, Panes(EffectAll([], ops)), r, c, m.screen[r, c])
  {
    m := new Manager(base);
    m.Session(ops);
    m.ScreenIs();
    ghost var ps := Panes(EffectAll([], ops));
    forall r, c | OnScreen(r, c) ensures Seen(base, ps, r, c, CellAt(base, ps, r, c)) { CellIsSeen(base, ps, r, c); }
  }

  lemma LoadedIn(S: seq<Window>, P: seq<Pane>, n: nat, kind: Kind, p: Pane, k: int, win: Window?, ws: seq<Window>, ps: seq<Pane>)
    requires |S| == |P| && n <= |S| && LoadedTo(S[..n], P[..n], kind, p, k, win, ws, ps)
    ensures forall i :: 0 <= i < |ws| ==> ws[i] in S || (k < 0 && ws[i] == win)
  {
    hide Worn;
  }

  lemma PromotedIn(S: seq<Window>, k: nat)
    requires k < |S|
    ensures forall i :: 0 <= i < |Promote(S, k)| ==> Promote(S, k)[i] in S
  {}

  lemma SwappedIn(S: seq<Window>)
    ensures var T := Swapped(TopOff(S, TopStandsAlone(S))); forall i :: 0 <= i < |T| ==> T[i] in S
  {
    var R := TopOff(S, TopStandsAlone(S));
    hide Swapped, TopOff, TopStandsAlone;
    DroppedOnes(S);
    SwappedHolds(R);
    forall i | 0 <= i < |R| ensures Swapped(R)[i] in S {}
  }

  lemma DroppedOnes(S: seq<Window>)
    ensures forall w :: w in TopOff(S, TopStandsAlone(S)) ==> w in S
  {}

  lemma SwappedHolds(R: seq<Window>)
    ensures forall i :: 0 <= i < |R| ==> Swapped(R)[i] in R
  {
    hide Promote;
    var n := |R|;
    assert n >= 2 ==> Swapped(R)[n - 2] == R[n - 1] && Swapped(R)[n - 1] == R[n - 2];
    assert forall i :: 0 <= i < n - 2 ==> Swapped(R)[i] == R[i];
  }

  lemma DroppedIn(S: seq<Window>, drop: bool)
    requires drop ==> S != []
    ensures var T := TopOff(S, drop); forall i :: 0 <= i < |T| ==> T[i] in S
  {}

  lemma KeptSplit(S: seq<Window>)
    requires Apart(S)
    ensures Begins(S[..Kept(S)], S)
  {}

  lemma DestroyedIn(S: seq<Window>, P: seq<Pane>, drop: bool, id: int, k: int, ws: seq<Window>, ps: seq<Pane>)
    requires |S| == |P| && (drop ==> S != []) && ClosedTo(TopOff(S, drop), TopOff(P, drop), id, k, ws, ps)
    ensures forall i :: 0 <= i < |ws| ==> ws[i] in S
  {
    hide Worn;
  }

  /** What does not apply does nothing. */
  lemma Idle(S: seq<Window>, P: seq<Pane>, op: Op)
    requires |S| == |P| && Proper(Looks(S, P)) && op.Sound()
    requires op.Forward? ==> op.k >= |S|
    requires op.Forward? || (op.Move? && (S == [] || !Movable(S[|S| - 1].kind, P[|P| - 1], op.dy, op.dx)))
    ensures Effect(Looks(S, P), op) == Looks(S, P)
  {
    hide Movable;
  }
}
