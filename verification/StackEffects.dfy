/** What the operations of src/windows.c do to the stack of windows as a value: which
    windows there are, bottom to top, where they lie and what is in them. */
module StackEffects {
  import opened Windows

  /** What is fixed when a window opens: what it stands for, which shutdown order closes
      it, and its flags; `optionMenu` says that it is an option menu with the id 4. */
  datatype Kind = Kind(id: int, idx: nat, activeBorder: bool, dontOverlay: bool, keepCoordinates: bool, optionMenu: bool)

  datatype Look = Look(kind: Kind, pane: Pane)

  datatype Op =
    | Open(kind: Kind, h: nat, w: nat, y: int, x: int, text: seq<seq<Cell>>)
    | Close
    | CloseId(id: int)
    | Forward(k: nat)
    | Swap
    | Move(dy: int, dx: int)
  {
    /** A window to open is not larger than the main window, and has its contents. */
    predicate Sound() {
      Open? ==>
        && 1 <= h <= 17 && 1 <= w <= 78 && (kind.keepCoordinates ==> Fits(h, w, y, x))
        && |text| == h && forall i :: 0 <= i < h ==> |text[i]| == w
    }
  }

  // ------------------------------------------------------------- sequences

  /** The k-th element moves to the end, the others keep their order. */
  function Promote<T>(s: seq<T>, k: nat): (r: seq<T>)
    requires k < |s|
    ensures |r| == |s|
  {
    s[..k] + s[k + 1..] + [s[k]]
  }

  /** The last two elements change places. */
  function Swapped<T>(s: seq<T>): (r: seq<T>)
    ensures |r| == |s|
    ensures |s| >= 2 ==> r == Promote(s, |s| - 2)
  {
    if |s| < 2 then s else s[..|s| - 1][..|s| - 2] + [s[|s| - 1]] + [s[|s| - 2]]
  }

  function TopOff<T>(s: seq<T>, drop: bool): seq<T>
    requires drop ==> s != []
  {
    if drop then s[..|s| - 1] else s
  }

  // --------------------------------------------------------------- windows

  predicate Proper(ls: seq<Look>) {
    forall i :: 0 <= i < |ls| ==> ls[i].pane.Valid()
  }

  /** Every window with the border that its rank calls for. */
  function Dressed(ls: seq<Look>): (r: seq<Look>)
    requires Proper(ls)
    ensures Proper(r) && |r| == |ls|
  {
    seq(|ls|, i requires 0 <= i < |ls| => Look(ls[i].kind, Edged(ls[i].kind.activeBorder, ls[i].pane, i == |ls| - 1)))
  }

  /** A window that keeps its coordinates is not held inside the main window. */
  predicate Movable(kind: Kind, p: Pane, dy: int, dx: int) {
    kind.keepCoordinates ==> Fits(p.h, p.w, p.y + dy, p.x + dx)
  }

  /** The top window's look after a move. */
  function Moved(p: Pane, dy: int, dx: int): Pane {
    p.(y := Clamp(2, p.y + dy, 19 - p.h), x := Clamp(1, p.x + dx, 79 - p.w))
  }

  predicate StandsAlone(ls: seq<Look>) {
    ls != [] && ls[|ls| - 1].kind.dontOverlay
  }

  predicate OptionMenu(ls: seq<Look>) {
    ls != [] && ls[|ls| - 1].kind.optionMenu
  }

  /** What is left once windows that must not be overlaid are gone from the top. */
  function Settled(ls: seq<Look>): (r: seq<Look>)
    ensures r <= ls
    ensures Proper(ls) ==> Proper(r)
  {
    if StandsAlone(ls) then Settled(ls[..|ls| - 1]) else ls
  }

  /** The highest window of that id, or -1. */
  function Find(ls: seq<Look>, id: int): (k: int)
    ensures -1 <= k < |ls|
    ensures k >= 0 ==> ls[k].kind.id == id
    ensures k < 0 ==> forall i :: 0 <= i < |ls| ==> ls[i].kind.id != id
  {
    if ls == [] then -1
    else if ls[|ls| - 1].kind.id == id then |ls| - 1
    else Find(ls[..|ls| - 1], id)
  }

  /** A new window opens as near as it can to where it is asked to. */
  function Placed(h: nat, w: nat, y: int, x: int, text: seq<seq<Cell>>): Pane {
    Pane(Clamp(2, y, 19 - h), Clamp(1, x, 79 - w), h, w, text)
  }

  lemma ProperParts(ls: seq<Look>, k: nat)
    requires Proper(ls) && k < |ls|
    ensures Proper(Promote(ls, k)) && Proper(ls[..k] + ls[k + 1..]) && Proper(ls[..k])
  {
    hide Pane.Valid;
  }

  lemma ProperPlus(ls: seq<Look>, l: Look)
    requires Proper(ls) && l.pane.Valid()
    ensures Proper(ls + [l])
  {
    hide Pane.Valid;
  }

  /** A new window lies at the nearest place, with its contents. */
  lemma PlacedNearest(h: nat, w: nat, y: int, x: int, text: seq<seq<Cell>>)
    requires 1 <= h <= 17 && 1 <= w <= 78
    ensures var p := Placed(h, w, y, x, text);
            p.h == h && p.w == w && p.text == text && Nearest(h, w, y, x, p.y, p.x)
  {
    ClampNearest(h, w, y, x);
  }

  /** So does a window that has moved. */
  lemma MovedNearest(p: Pane, dy: int, dx: int)
    requires p.Valid()
    ensures var q := Moved(p, dy, dx);
            q.h == p.h && q.w == p.w && q.text == p.text && Nearest(p.h, p.w, p.y + dy, p.x + dx, q.y, q.x)
  {
    ClampNearest(p.h, p.w, p.y + dy, p.x + dx);
  }

  lemma MovedValid(p: Pane, dy: int, dx: int)
    requires p.Valid()
    ensures Moved(p, dy, dx).Valid()
  {}

  /** Window k comes to the front. */
  function Fronted(ls: seq<Look>, k: nat): (r: seq<Look>)
    requires Proper(ls) && k < |ls|
    ensures Proper(r)
  {
    ProperParts(ls, k);
    Dressed(Promote(ls, k))
  }

  function Opened(ls: seq<Look>, op: Op): (r: seq<Look>)
    requires Proper(ls) && op.Open? && op.Sound()
    ensures Proper(r)
  {
    var k := Find(ls, op.kind.id);
    if k >= 0 then Fronted(ls, k)
    else
      var l := Look(op.kind, Placed(op.h, op.w, op.y, op.x, op.text));
      ProperPlus(ls, l);
      Dressed(ls + [l])
  }

  /** Window k goes. */
  function Less(ls: seq<Look>, k: nat): (r: seq<Look>)
    requires Proper(ls) && k < |ls|
    ensures Proper(r)
  {
    ProperParts(ls, k);
    Dressed(ls[..k] + ls[k + 1..])
  }

  function Closed(ls: seq<Look>, id: int): (r: seq<Look>)
    requires Proper(ls)
    ensures Proper(r)
  {
    var k := Find(ls, id);
    if k >= 0 then Less(ls, k) else Dressed(ls)
  }

  function WithoutTop(ls: seq<Look>, drop: bool): (r: seq<Look>)
    requires Proper(ls) && (drop ==> ls != [])
    ensures Proper(r)
  {
    if drop then ProperParts(ls, |ls| - 1); ls[..|ls| - 1] else ls
  }

  function Exchanged(ls: seq<Look>): (r: seq<Look>)
    requires Proper(ls)
    ensures Proper(r)
  {
    if |ls| >= 2 then Fronted(ls, |ls| - 2) else Dressed(ls)
  }

  function Shifted(ls: seq<Look>, dy: int, dx: int): (r: seq<Look>)
    requires Proper(ls)
    ensures Proper(r)
  {
    if ls == [] || !Movable(ls[|ls| - 1].kind, ls[|ls| - 1].pane, dy, dx) then ls
    else
      var n := |ls| - 1;
      var l := Look(ls[n].kind, Moved(ls[n].pane, dy, dx));
      ProperParts(ls, n);
      MovedValid(ls[n].pane, dy, dx);
      ProperPlus(ls[..n], l);
      ls[..n] + [l]
  }

  /** One operation of a user; what does not apply does nothing. */
  function Effect(ls: seq<Look>, op: Op): (r: seq<Look>)
    requires Proper(ls) && op.Sound()
    ensures Proper(r)
  {
    match op
    case Open(_, _, _, _, _, _) => Opened(Settled(ls), op)
    case Close => Dressed(WithoutTop(ls, ls != []))
    case CloseId(id) => Closed(WithoutTop(ls, OptionMenu(ls)), id)
    case Forward(k) => if k < |ls| then Fronted(ls, k) else ls
    case Swap => Exchanged(WithoutTop(ls, StandsAlone(ls)))
    case Move(dy, dx) => Shifted(ls, dy, dx)
  }

  function EffectAll(ls: seq<Look>, ops: seq<Op>): (r: seq<Look>)
    requires Proper(ls) && forall n :: 0 <= n < |ops| ==> ops[n].Sound()
    ensures Proper(r)
    decreases |ops|
  {
    if ops == [] then ls else EffectAll(Effect(ls, ops[0]), ops[1..])
  }

  function Panes(ls: seq<Look>): (ps: seq<Pane>)
    requires Proper(ls)
    ensures AllValid(ps)
  {
    seq(|ls|, i requires 0 <= i < |ls| => ls[i].pane)
  }

  // ----------------------------------------------- what the operations come to

  /** The promoted element is last, those before it stay and those behind it move up. */
  lemma PromoteMeans<T>(s: seq<T>, k: nat)
    requires k < |s|
    ensures Promote(s, k)[|s| - 1] == s[k]
    ensures forall i :: 0 <= i < |s| - 1 ==> Promote(s, k)[i] == s[if i < k then i else i + 1]
  {}

  lemma SwappedMeans<T>(s: seq<T>)
    requires |s| >= 2
    ensures Swapped(s)[|s| - 1] == s[|s| - 2] && Swapped(s)[|s| - 2] == s[|s| - 1]
    ensures forall i :: 0 <= i < |s| - 2 ==> Swapped(s)[i] == s[i]
  {}

  /** Windows that must not be overlaid go from the top, and no others. */
  lemma {:induction false} SettledMeans(ls: seq<Look>)
    ensures var r := Settled(ls);
      && (r != [] ==> !r[|r| - 1].kind.dontOverlay)
      && forall i :: |r| <= i < |ls| ==> ls[i].kind.dontOverlay
  {
    if StandsAlone(ls) { SettledMeans(ls[..|ls| - 1]); }
  }

  /** A window wears its border as the top window only: in other places the corners are
      plain, and nothing else in it changes. */
  lemma EdgedMeans(p: Pane, top: bool)
    requires p.Valid() && p.h >= 2 && p.w >= 2
    ensures var q, alt := Edged(true, p, top), 0x40_0000;
      && q.text[0][0] == (if top then 214 else 0x6C) + alt && q.text[0][p.w - 1] == (if top then 183 else 0x6B) + alt
      && q.text[p.h - 1][0] == (if top then 211 else 0x6D) + alt && q.text[p.h - 1][p.w - 1] == (if top then 189 else 0x6A) + alt
      && forall r, c :: 0 <= r < p.h && 0 <= c < p.w && !((r == 0 || r == p.h - 1) && (c == 0 || c == p.w - 1)) ==>
           q.text[r][c] == p.text[r][c]
    ensures Edged(false, p, top) == p
  {}

  /** What an operation leaves of a window but for its border. */
  predicate Alike(a: Look, b: Look) {
    a.kind == b.kind && a.pane.h == b.pane.h && a.pane.w == b.pane.w && a.pane.y == b.pane.y && a.pane.x == b.pane.x
  }

  lemma DressedAlike(ls: seq<Look>)
    requires Proper(ls)
    ensures forall i :: 0 <= i < |ls| ==> Alike(Dressed(ls)[i], ls[i])
  {}

  /** Opening a window that is there, after settling, brings it to the top from place k;
      the others are those left by settling, in order. */
  lemma OpenFound(ls: seq<Look>, op: Op, k: nat, was: seq<Look>)
    requires Proper(ls) && op.Open? && op.Sound() && was == Settled(ls)
    requires k < |was| && was[k].kind.id == op.kind.id && forall j :: k < j < |was| ==> was[j].kind.id != op.kind.id
    ensures var r := Effect(ls, op);
            && |r| == |was| && Alike(r[|r| - 1], was[k])
            && forall i :: 0 <= i < |r| - 1 ==> Alike(r[i], was[if i < k then i else i + 1])
  {
    OpenIs(ls, op);
    hide *;
    OneHighest(was, op.kind.id, k);
    OpenedFound(was, op, k);
    FrontedAlike(was, k);
  }

  lemma OpenIs(ls: seq<Look>, op: Op)
    requires Proper(ls) && op.Open? && op.Sound()
    ensures Effect(ls, op) == Opened(Settled(ls), op)
  {
    hide Opened, Settled, Proper;
  }

  lemma OpenedFound(ls: seq<Look>, op: Op, k: nat)
    requires Proper(ls) && op.Open? && op.Sound() && k < |ls| && Find(ls, op.kind.id) == k
    ensures Opened(ls, op) == Fronted(ls, k)
  {}

  lemma OneHighest(ls: seq<Look>, id: int, k: nat)
    requires k < |ls| && ls[k].kind.id == id && forall j :: k < j < |ls| ==> ls[j].kind.id != id
    ensures Find(ls, id) == k
  {
    FindIsHighest(ls, id);
    hide Find;
  }

  lemma FrontedAlike(ls: seq<Look>, k: nat)
    requires Proper(ls) && k < |ls|
    ensures var r := Fronted(ls, k);
            && |r| == |ls| && Alike(r[|r| - 1], ls[k])
            && forall i :: 0 <= i < |r| - 1 ==> Alike(r[i], ls[if i < k then i else i + 1])
  {
    hide Dressed, Pane.Valid, Promote, Alike;
    PromoteMeans(ls, k);
    ProperParts(ls, k);
    var p := Promote(ls, k);
    DressedAlike(p);
    forall i | 0 <= i < |p| - 1 ensures Alike(Dressed(p)[i], ls[if i < k then i else i + 1]) { assert Alike(Dressed(p)[i], p[i]); }
  }

  lemma LessAlike(ls: seq<Look>, k: nat)
    requires Proper(ls) && k < |ls|
    ensures var r := Less(ls, k);
            |r| == |ls| - 1 && forall i :: 0 <= i < |r| ==> Alike(r[i], ls[if i < k then i else i + 1])
  {
    hide Dressed, Pane.Valid, Alike;
    ProperParts(ls, k);
    var p := ls[..k] + ls[k + 1..];
    DressedAlike(p);
    forall i | 0 <= i < |p| ensures Alike(Dressed(p)[i], ls[if i < k then i else i + 1]) {
      assert Alike(Dressed(p)[i], p[i]) && p[i] == ls[if i < k then i else i + 1];
    }
  }

  /** Any other window opens on top of them, at the nearest place to the one asked for. */
  lemma OpenNew(ls: seq<Look>, op: Op)
    requires Proper(ls) && op.Open? && op.Sound() && forall i :: 0 <= i < |Settled(ls)| ==> Settled(ls)[i].kind.id != op.kind.id
    ensures var was, r := Settled(ls), Effect(ls, op);
            && |r| == |was| + 1 && (forall i :: 0 <= i < |was| ==> Alike(r[i], was[i]))
            && var q := r[|r| - 1];
               && q.kind == op.kind && q.pane.h == op.h && q.pane.w == op.w
               && Nearest(op.h, op.w, op.y, op.x, q.pane.y, q.pane.x)
  {
    hide Dressed, Nearest, Placed, Pane.Valid;
    var was := Settled(ls);
    var l := Look(op.kind, Placed(op.h, op.w, op.y, op.x, op.text));
    PlacedValid(op);
    ProperPlus(was, l);
    DressedAlike(was + [l]);
    PlacedNearest(op.h, op.w, op.y, op.x, op.text);
  }

  lemma {:induction false} FindIsHighest(ls: seq<Look>, id: int)
    ensures forall j :: Find(ls, id) < j < |ls| ==> ls[j].kind.id != id
  {
    if ls != [] && ls[|ls| - 1].kind.id != id {
      FindIsHighest(ls[..|ls| - 1], id);
      assert forall j :: 0 <= j < |ls| - 1 ==> ls[..|ls| - 1][j] == ls[j];
    }
  }

  lemma PlacedValid(op: Op)
    requires op.Open? && op.Sound()
    ensures Placed(op.h, op.w, op.y, op.x, op.text).Valid()
  {}

  /** Closing takes the top window. */
  lemma CloseMeans(ls: seq<Look>)
    requires Proper(ls)
    ensures var r := Effect(ls, Close);
            |r| == (if ls == [] then 0 else |ls| - 1) && forall i :: 0 <= i < |r| ==> Alike(r[i], ls[i])
  {
    hide Dressed, Pane.Valid;
    DressedAlike(WithoutTop(ls, ls != []));
  }

  /** How many windows closing by id looks at: an option menu on top goes first. */
  function Beneath(ls: seq<Look>): (m: nat)
    ensures m <= |ls|
  {
    if ls != [] && ls[|ls| - 1].kind.optionMenu then |ls| - 1 else |ls|
  }

  /** Then the highest window of that id goes, from place k; the others keep their order. */
  lemma CloseIdFound(ls: seq<Look>, id: int, k: nat)
    requires Proper(ls) && k < Beneath(ls) && ls[k].kind.id == id && forall j :: k < j < Beneath(ls) ==> ls[j].kind.id != id
    ensures var r := Effect(ls, CloseId(id));
            |r| == Beneath(ls) - 1 && forall i :: 0 <= i < |r| ==> Alike(r[i], ls[if i < k then i else i + 1])
  {
    hide Dressed, Pane.Valid, Alike, Find, Less;
    var was := WithoutTop(ls, OptionMenu(ls));
    assert |was| == Beneath(ls) && forall i :: 0 <= i < |was| ==> was[i] == ls[i];
    OneHighest(was, id, k);
    LessAlike(was, k);
  }

  lemma CloseIdNone(ls: seq<Look>, id: int)
    requires Proper(ls) && forall i :: 0 <= i < Beneath(ls) ==> ls[i].kind.id != id
    ensures var r := Effect(ls, CloseId(id)); |r| == Beneath(ls) && forall i :: 0 <= i < |r| ==> Alike(r[i], ls[i])
  {
    hide Dressed, Pane.Valid, Alike;
    var was := WithoutTop(ls, OptionMenu(ls));
    assert |was| == Beneath(ls) && forall i :: 0 <= i < |was| ==> was[i] == ls[i];
    DressedAlike(was);
  }

  /** Bringing forward puts window k on top and leaves the others in order. */
  lemma ForwardMeans(ls: seq<Look>, k: nat)
    requires Proper(ls)
    ensures var r := Effect(ls, Forward(k));
      && |r| == |ls| && (k >= |ls| ==> r == ls)
      && (k < |ls| ==> Alike(r[|r| - 1], ls[k]) && forall i :: 0 <= i < |r| - 1 ==> Alike(r[i], ls[if i < k then i else i + 1]))
  {
    hide Dressed, Pane.Valid;
    if k < |ls| { FrontedAlike(ls, k); }
  }

  /** How many windows swapping looks at: one that must not be overlaid goes from the top. */
  function Swappable(ls: seq<Look>): (m: nat)
    ensures m <= |ls|
  {
    if ls != [] && ls[|ls| - 1].kind.dontOverlay then |ls| - 1 else |ls|
  }

  /** Then the two topmost change places. */
  lemma SwapMeans(ls: seq<Look>)
    requires Proper(ls) && Swappable(ls) >= 2
    ensures var r, m := Effect(ls, Swap), Swappable(ls);
            && |r| == m && Alike(r[m - 1], ls[m - 2]) && Alike(r[m - 2], ls[m - 1])
            && forall i :: 0 <= i < m - 2 ==> Alike(r[i], ls[i])
  {
    hide Dressed, Pane.Valid, Promote, Alike, Fronted;
    var was := WithoutTop(ls, StandsAlone(ls));
    assert |was| == Swappable(ls) && forall i :: 0 <= i < |was| ==> was[i] == ls[i];
    FrontedAlike(was, |was| - 2);
  }

  lemma SwapOne(ls: seq<Look>)
    requires Proper(ls) && Swappable(ls) < 2
    ensures |Effect(ls, Swap)| == Swappable(ls) && (Swappable(ls) == 1 ==> Alike(Effect(ls, Swap)[0], ls[0]))
  {
    hide Dressed, Pane.Valid, Alike;
    DressedAlike(WithoutTop(ls, StandsAlone(ls)));
  }

  /** A window with an active border shows it if, and only if, it is on top; of one with
      less than two rows or columns the corners coincide. */
  predicate Wears(l: Look, top: bool) {
    var p := l.pane;
    p.Valid() && (l.kind.activeBorder && p.h >= 2 && p.w >= 2 ==>
      && p.text[0][0] == (if top then 214 else 0x6C) + 0x40_0000
      && p.text[0][p.w - 1] == (if top then 183 else 0x6B) + 0x40_0000
      && p.text[p.h - 1][0] == (if top then 211 else 0x6D) + 0x40_0000
      && p.text[p.h - 1][p.w - 1] == (if top then 189 else 0x6A) + 0x40_0000)
  }

  predicate AllWear(ls: seq<Look>) {
    match ls case _ => forall i :: 0 <= i < |ls| ==> Wears(ls[i], i == |ls| - 1)
  }

  lemma DressedWear(ls: seq<Look>)
    requires Proper(ls)
    ensures AllWear(Dressed(ls))
  {
    hide Pane.Valid, Edged;
    forall i | 0 <= i < |ls| ensures Wears(Dressed(ls)[i], i == |ls| - 1) {
      var p := ls[i].pane;
      if p.h >= 2 && p.w >= 2 { EdgedMeans(p, i == |ls| - 1); }
    }
  }

  /** Every operation leaves the borders right. */
  lemma EffectWears(ls: seq<Look>, op: Op)
    requires Proper(ls) && op.Sound() && AllWear(ls)
    ensures AllWear(Effect(ls, op))
  {
    hide Dressed, Wears, AllWear, Placed, Moved, Find, Pane.Valid, Promote;
    match op
    case Open(_, _, _, _, _, _) =>
      var was := Settled(ls);
      var k := Find(was, op.kind.id);
      if k >= 0 {
        ProperParts(was, k);
        DressedWear(Promote(was, k));
      } else {
        var l := Look(op.kind, Placed(op.h, op.w, op.y, op.x, op.text));
        PlacedValid(op);
        ProperPlus(was, l);
        DressedWear(was + [l]);
      }
    case Close => DressedWear(WithoutTop(ls, ls != []));
    case CloseId(id) =>
      var was := WithoutTop(ls, OptionMenu(ls));
      var k := Find(was, id);
      if k >= 0 {
        ProperParts(was, k);
        DressedWear(was[..k] + was[k + 1..]);
      } else {
        DressedWear(was);
      }
    case Forward(k) =>
      if k < |ls| {
        ProperParts(ls, k);
        DressedWear(Promote(ls, k));
      }
    case Swap =>
      var was := WithoutTop(ls, StandsAlone(ls));
      if |was| >= 2 {
        ProperParts(was, |was| - 2);
        DressedWear(Promote(was, |was| - 2));
      } else {
        DressedWear(was);
      }
    case Move(dy, dx) => ShiftedWears(ls, dy, dx);
  }

  lemma ShiftedWears(ls: seq<Look>, dy: int, dx: int)
    requires Proper(ls) && AllWear(ls)
    ensures AllWear(Shifted(ls, dy, dx))
  {
    if ls != [] { MovedValid(ls[|ls| - 1].pane, dy, dx); }
  }

  /** After any operations the window on top alone shows its border. */
  lemma {:induction false} EffectAllWears(ls: seq<Look>, ops: seq<Op>)
    requires Proper(ls) && AllWear(ls) && forall n :: 0 <= n < |ops| ==> ops[n].Sound()
    ensures AllWear(EffectAll(ls, ops))
    decreases |ops|
  {
    hide Effect, AllWear;
    if ops != [] {
      EffectWears(ls, ops[0]);
      EffectAllWears(Effect(ls, ops[0]), ops[1..]);
    }
  }

  /** A move changes the place of the top window alone, to the nearest one to the place
      asked for. */
  lemma MoveMeans(ls: seq<Look>, dy: int, dx: int)
    requires Proper(ls) && ls != [] && !ls[|ls| - 1].kind.keepCoordinates
    ensures var n := |ls| - 1; var r := Effect(ls, Move(dy, dx));
      && |r| == |ls| && r[..n] == ls[..n] && r[n].kind == ls[n].kind
      && r[n].pane.text == ls[n].pane.text && r[n].pane.h == ls[n].pane.h && r[n].pane.w == ls[n].pane.w
      && Nearest(ls[n].pane.h, ls[n].pane.w, ls[n].pane.y + dy, ls[n].pane.x + dx, r[n].pane.y, r[n].pane.x)
  {
    hide Nearest, Pane.Valid;
    MovedNearest(ls[|ls| - 1].pane, dy, dx);
  }
}
