/** The overlapping windows of src/windows.c.

    Every window keeps in `buf` a copy of the cells it covers.  The manager
    never repaints the whole screen: it saves before it paints and writes the
    saved cells back when a window goes.  The claim is that the screen always
    shows the base picture with the windows painted on it from bottom to top.

    MainWin, curscr and newscr are one frame buffer here, addressed by screen
    row and column; the cell (y, x) of MainWin is the screen cell
    (y + Y_OFFSET, x + X_OFFSET). */
module Windows {

  type Cell = int

  const ROWS := 24
  const COLS := 80
  const Y_OFFSET := 2
  const X_OFFSET := 1

  const A_ALTCHARSET := 0x40_0000
  const ACS_ULCORNER: Cell := 0x6C + A_ALTCHARSET
  const ACS_URCORNER: Cell := 0x6B + A_ALTCHARSET
  const ACS_LLCORNER: Cell := 0x6D + A_ALTCHARSET
  const ACS_LRCORNER: Cell := 0x6A + A_ALTCHARSET

  type Frame = f: seq<seq<Cell>> | |f| == ROWS && forall y :: 0 <= y < ROWS ==> |f[y]| == COLS
    witness seq(ROWS, y => seq(COLS, x => 0))

  /** The curses window behind a stack entry: place, size and contents. */
  datatype Pane = Pane(y: int, x: int, h: nat, w: nat, text: seq<seq<Cell>>) {
    predicate Covers(r: int, c: int) { y <= r < y + h && x <= c < x + w }

    predicate Valid() {
      && 1 <= h && 1 <= w && Fits(h, w, y, x)
      && |text| == h && forall r :: 0 <= r < h ==> |text[r]| == w
    }

    function With(r: nat, c: nat, v: Cell): Pane
      requires Valid() && r < h && c < w
      ensures With(r, c, v).Valid()
    {
      this.(text := text[r := text[r][c := v]])
    }

    function Corners(ul: Cell, ur: Cell, ll: Cell, lr: Cell): Pane
      requires Valid()
    {
      With(0, 0, ul).With(0, w - 1, ur).With(h - 1, 0, ll).With(h - 1, w - 1, lr)
    }

    /** `BorderOn` and `BorderOff`. */
    function BorderOn(): Pane
      requires Valid()
    {
      Corners(214 + A_ALTCHARSET, 183 + A_ALTCHARSET, 211 + A_ALTCHARSET, 189 + A_ALTCHARSET)
    }

    function BorderOff(): Pane
      requires Valid()
    {
      Corners(ACS_ULCORNER, ACS_URCORNER, ACS_LLCORNER, ACS_LRCORNER)
    }
  }

  /** The border a window wears as the top window, and as any other. */
  function Edged(active: bool, p: Pane, top: bool): (q: Pane)
    requires p.Valid()
    ensures q.Valid() && q.h == p.h && q.w == p.w && q.y == p.y && q.x == p.x
  {
    if !active then p else if top then p.BorderOn() else p.BorderOff()
  }

  lemma CornersOverwrite(p: Pane, a: Cell, b: Cell, c: Cell, d: Cell, a': Cell, b': Cell, c': Cell, d': Cell)
    requires p.Valid()
    ensures p.Corners(a, b, c, d).Valid()
    ensures p.Corners(a, b, c, d).Corners(a', b', c', d') == p.Corners(a', b', c', d')
  {
    var q, q' := p.Corners(a, b, c, d).Corners(a', b', c', d'), p.Corners(a', b', c', d');
    forall r | 0 <= r < p.h ensures q.text[r] == q'.text[r] {
      forall i | 0 <= i < p.w ensures q.text[r][i] == q'.text[r][i] {}
    }
    assert q.text == q'.text;
  }

  lemma EdgedTwice(active: bool, p: Pane, top: bool, top': bool)
    requires p.Valid()
    ensures Edged(active, Edged(active, p, top), top') == Edged(active, p, top')
  {
    if active {
      var B := A_ALTCHARSET;
      if top {
        CornersOverwrite(p, 214 + B, 183 + B, 211 + B, 189 + B, 214 + B, 183 + B, 211 + B, 189 + B);
        CornersOverwrite(p, 214 + B, 183 + B, 211 + B, 189 + B, ACS_ULCORNER, ACS_URCORNER, ACS_LLCORNER, ACS_LRCORNER);
      } else {
        CornersOverwrite(p, ACS_ULCORNER, ACS_URCORNER, ACS_LLCORNER, ACS_LRCORNER, 214 + B, 183 + B, 211 + B, 189 + B);
        CornersOverwrite(p, ACS_ULCORNER, ACS_URCORNER, ACS_LLCORNER, ACS_LRCORNER,
          ACS_ULCORNER, ACS_URCORNER, ACS_LLCORNER, ACS_LRCORNER);
      }
    }
  }

  /** A border moves along with its window. */
  lemma EdgedMoved(active: bool, p: Pane, top: bool, y: int, x: int)
    requires p.Valid() && Fits(p.h, p.w, y, x)
    ensures Edged(active, p.(y := y, x := x), top) == Edged(active, p, top).(y := y, x := x)
  {}

  /** Does a window of h rows and w columns lie inside the main window? */
  predicate Fits(h: int, w: int, y: int, x: int) {
    2 <= y && y + h <= 19 && 1 <= x && x + w <= 79
  }

  predicate AllValid(ps: seq<Pane>) {
    forall i :: 0 <= i < |ps| ==> ps[i].Valid()
  }

  /** What the eye should see at (y, x): the base painted with the windows from
      the first to the last. */
  function CellAt(base: Frame, ps: seq<Pane>, y: int, x: int): Cell
    requires OnScreen(y, x)
    requires AllValid(ps)
  {
    if ps == [] then base[y][x]
    else
      var top := ps[|ps| - 1];
      if top.Covers(y, x) then top.text[y - top.y][x - top.x]
      else CellAt(base, ps[..|ps| - 1], y, x)
  }

  lemma PaintedOver(base: Frame, ps: seq<Pane>, p: Pane, y: int, x: int)
    requires OnScreen(y, x) && AllValid(ps) && p.Valid()
    ensures AllValid(ps + [p])
    ensures CellAt(base, ps + [p], y, x) ==
            if p.Covers(y, x) then p.text[y - p.y][x - p.x] else CellAt(base, ps, y, x)
  {
    assert (ps + [p])[..|ps|] == ps;
  }

  /** At (y, x) one sees v: the cell of the topmost window there is there, or of the base. */
  ghost predicate Seen(base: Frame, ps: seq<Pane>, y: int, x: int, v: Cell)
    requires OnScreen(y, x) && AllValid(ps)
  {
    && ((forall i :: 0 <= i < |ps| ==> !ps[i].Covers(y, x)) ==> v == base[y][x])
    && forall k :: 0 <= k < |ps| && ps[k].Covers(y, x) && (forall j :: k < j < |ps| ==> !ps[j].Covers(y, x)) ==>
         v == ps[k].text[y - ps[k].y][x - ps[k].x]
  }

  lemma {:induction false} CellIsSeen(base: Frame, ps: seq<Pane>, y: int, x: int)
    requires OnScreen(y, x) && AllValid(ps)
    ensures Seen(base, ps, y, x, CellAt(base, ps, y, x))
  {
    hide Pane.Covers, Pane.Valid;
    if ps != [] && !ps[|ps| - 1].Covers(y, x) {
      var n, v := |ps| - 1, CellAt(base, ps, y, x);
      CellIsSeen(base, ps[..n], y, x);
      SeenThrough(base, ps, y, x, v);
    }
  }

  /** Past a window that is not there. */
  lemma SeenThrough(base: Frame, ps: seq<Pane>, y: int, x: int, v: Cell)
    requires OnScreen(y, x) && AllValid(ps) && ps != [] && !ps[|ps| - 1].Covers(y, x)
    requires Seen(base, ps[..|ps| - 1], y, x, v)
    ensures Seen(base, ps, y, x, v)
  {
    var below := ps[..|ps| - 1];
    assert forall i :: 0 <= i < |below| ==> below[i] == ps[i];
    forall k | 0 <= k < |ps| && ps[k].Covers(y, x) && (forall j :: k < j < |ps| ==> !ps[j].Covers(y, x))
      ensures v == ps[k].text[y - ps[k].y][x - ps[k].x]
    {
      assert below[k].Covers(y, x) && forall j :: k < j < |below| ==> !below[j].Covers(y, x);
    }
  }

  /** The place of cell (r, c) in a row-major buffer of rows of length w. */
  function Index(w: int, r: int, c: int): int { r * w + c }

  /** The number of cells of a pane. */
  function Area(p: Pane): int { p.h * p.w }

  lemma IndexSteps(w: int, r: int, c: int)
    ensures Index(w, 0, 0) == 0
    ensures Index(w, r, c + 1) == Index(w, r, c) + 1
    ensures Index(w, r + 1, 0) == Index(w, r, w)
  {
    assert (r + 1) * w == r * w + w;
  }

  lemma {:induction false} RowsApart(w: nat, r: nat, r': nat)
    requires r < r'
    ensures r * w + w <= r' * w
    decreases r'
  {
    assert r' * w == (r' - 1) * w + w;
    if r < r' - 1 { RowsApart(w, r, r' - 1); }
  }

  lemma IndexBound(p: Pane, r: nat, c: nat)
    requires r < p.h && c < p.w
    ensures 0 <= Index(p.w, r, c) < Area(p)
  {
    RowsApart(p.w, r, p.h);
  }

  lemma IndexInjective(w: nat, r: nat, c: nat, r': nat, c': nat)
    requires c < w && c' < w && Index(w, r, c) == Index(w, r', c')
    ensures r == r' && c == c'
  {
    if r < r' { RowsApart(w, r, r'); }
    if r' < r { RowsApart(w, r', r); }
  }

  /** The cell that a buffer of pane p holds for the screen cell (y, x). */
  function Under(p: Pane, cells: seq<Cell>, y: int, x: int): Cell
    requires p.Valid() && p.Covers(y, x) && Area(p) <= |cells|
  {
    IndexBound(p, y - p.y, x - p.x);
    cells[Index(p.w, y - p.y, x - p.x)]
  }

  /** The buffer of p holds what the windows below it show. */
  ghost predicate SavedBelow(base: Frame, below: seq<Pane>, p: Pane, cells: seq<Cell>)
    requires AllValid(below) && p.Valid()
  {
    && Area(p) <= |cells|
    && forall y, x :: p.Covers(y, x) ==> Under(p, cells, y, x) == CellAt(base, below, y, x)
  }

  /** Writing the saved cells back uncovers what lies below. */
  lemma Uncovered(base: Frame, below: seq<Pane>, p: Pane, cells: seq<Cell>, y: int, x: int)
    requires OnScreen(y, x) && AllValid(below) && p.Valid()
    requires SavedBelow(base, below, p, cells)
    ensures AllValid(below + [p])
    ensures CellAt(base, below, y, x) ==
            if p.Covers(y, x) then Under(p, cells, y, x) else CellAt(base, below + [p], y, x)
  {
    PaintedOver(base, below, p, y, x);
  }

  /** Changing what a pane shows does not touch anything outside of it. */
  lemma SameShape(base: Frame, below: seq<Pane>, p: Pane, q: Pane, cells: seq<Cell>)
    requires AllValid(below) && p.Valid() && q.Valid() && q.h == p.h && q.w == p.w && q.y == p.y && q.x == p.x
    requires SavedBelow(base, below, p, cells)
    ensures SavedBelow(base, below, q, cells) && AllValid(below + [p]) && AllValid(below + [q])
    ensures forall y, x :: OnScreen(y, x) && !q.Covers(y, x) ==>
              CellAt(base, below + [q], y, x) == CellAt(base, below + [p], y, x)
  {
    forall y, x | q.Covers(y, x) ensures Under(q, cells, y, x) == CellAt(base, below, y, x) {
      assert Under(p, cells, y, x) == CellAt(base, below, y, x);
    }
    forall y, x | OnScreen(y, x) && !q.Covers(y, x)
      ensures CellAt(base, below + [q], y, x) == CellAt(base, below + [p], y, x)
    {
      PaintedOver(base, below, p, y, x);
      PaintedOver(base, below, q, y, x);
    }
  }

  function Clamp(lo: int, v: int, hi: int): int {
    if v < lo then lo else if v > hi then hi else v
  }

  function Distance(a: int, b: int): nat { if a < b then b - a else a - b }

  /** No place inside the main window is nearer to (y0, x0), in rows or in columns. */
  ghost predicate Nearest(h: int, w: int, y0: int, x0: int, y: int, x: int) {
    match h
    case _ =>
      && Fits(h, w, y, x)
      && forall y', x' :: Fits(h, w, y', x') ==> Distance(y, y0) <= Distance(y', y0) && Distance(x, x0) <= Distance(x', x0)
  }

  lemma ClampNearest(h: int, w: int, y0: int, x0: int)
    requires 1 <= h <= 17 && 1 <= w <= 78
    ensures Nearest(h, w, y0, x0, Clamp(2, y0, 19 - h), Clamp(1, x0, 79 - w))
  {}

  /** There is just one nearest place. */
  lemma OneNearest(h: int, w: int, y0: int, x0: int, y: int, x: int, y': int, x': int)
    requires Nearest(h, w, y0, x0, y, x) && Nearest(h, w, y0, x0, y', x')
    ensures y == y' && x == x'
  {
    var row, column := Fits(h, w, y0, x), Fits(h, w, y, x0);
    assert Fits(h, w, y, x) && Fits(h, w, y', x');
  }

  /** `CheckGeometry`: move a window of h rows and w columns into the main
      window, which works exactly when it is not larger than that. */
  method CheckGeometry(h: int, w: int, y0: int, x0: int) returns (y: int, x: int)
    ensures Fits(h, w, y, x) <==> h <= 17 && w <= 78
    ensures Fits(h, w, y0, x0) ==> y == y0 && x == x0
    ensures h <= 17 ==> y == Clamp(2, y0, 19 - h)
    ensures w <= 78 ==> x == Clamp(1, x0, 79 - w)
    ensures 1 <= h <= 17 && 1 <= w <= 78 ==> Nearest(h, w, y0, x0, y, x)
  {
    if 1 <= h <= 17 && 1 <= w <= 78 { ClampNearest(h, w, y0, x0); }
    y, x := y0, x0;
    if x - 1 < 1 { x := 1; }
    if x + w > 79 { x := 79 - w; }
    if y - 1 < 2 { y := 2; }
    if y + h > 18 { y := 19 - h; }
  }

  // --------------------------------------------------------------- drawing

  predicate Sized(screen: array2<Cell>) { screen.Length0 == ROWS && screen.Length1 == COLS }

  predicate OnScreen(y: int, x: int) { 0 <= y < ROWS && 0 <= x < COLS }

  /** `mwmove` and `whline`: one cell of MainWin. */
  method PutMain(screen: array2<Cell>, y: int, x: int, ch: Cell)
    requires Sized(screen) && 0 <= y < ROWS - Y_OFFSET && 0 <= x < COLS - X_OFFSET
    modifies screen
    ensures forall r, c :: OnScreen(r, c) ==>
              screen[r, c] == if r == y + Y_OFFSET && c == x + X_OFFSET then ch else old(screen[r, c])
  {
    screen[y + Y_OFFSET, x + X_OFFSET] := ch;
  }

  /** The saved cells are back, and nothing else has changed. */
  twostate predicate Restored(screen: array2<Cell>, p: Pane, cells: seq<Cell>)
    requires Sized(screen) && p.Valid() && Area(p) <= |cells|
    reads screen
  {
    forall r, c :: OnScreen(r, c) ==>
      screen[r, c] == if p.Covers(r, c) then Under(p, cells, r, c) else old(screen[r, c])
  }

  method ShutdownWindowGravityZero(screen: array2<Cell>, p: Pane, buf: array<Cell>)
    requires Sized(screen) && p.Valid() && Area(p) <= buf.Length
    modifies screen
    ensures Restored(screen, p, buf[..])
  {
    hide Index, Area;
    ghost var cells := buf[..];
    var chs := 0;
    var y := p.y - Y_OFFSET;
    IndexSteps(p.w, 0, 0);
    while y < p.y + p.h - Y_OFFSET
      invariant p.y - Y_OFFSET <= y <= p.y + p.h - Y_OFFSET
      invariant chs == Index(p.w, y - (p.y - Y_OFFSET), 0)
      invariant forall r, c :: OnScreen(r, c) ==>
        screen[r, c] == if p.Covers(r, c) && r < y + Y_OFFSET then Under(p, cells, r, c) else old(screen[r, c])
    {
      var x := p.x - X_OFFSET;
      while x < p.x + p.w - X_OFFSET
        invariant p.x - X_OFFSET <= x <= p.x + p.w - X_OFFSET
        invariant chs == Index(p.w, y - (p.y - Y_OFFSET), x - (p.x - X_OFFSET))
        invariant forall r, c :: OnScreen(r, c) ==>
          screen[r, c] ==
            if p.Covers(r, c) && (r < y + Y_OFFSET || (r == y + Y_OFFSET && c < x + X_OFFSET))
            then Under(p, cells, r, c) else old(screen[r, c])
      {
        IndexBound(p, y - (p.y - Y_OFFSET), x - (p.x - X_OFFSET));
        PutMain(screen, y, x, buf[chs]);
        IndexSteps(p.w, y - (p.y - Y_OFFSET), x - (p.x - X_OFFSET));
        x, chs := x + 1, chs + 1;
      }
      IndexSteps(p.w, y - (p.y - Y_OFFSET), 0);
      y := y + 1;
    }
  }

  /** The same cells from the last to the first. */
  method ShutdownWindowGravityNorth(screen: array2<Cell>, p: Pane, buf: array<Cell>)
    requires Sized(screen) && p.Valid() && Area(p) <= buf.Length
    modifies screen
    ensures Restored(screen, p, buf[..])
  {
    ghost var cells := buf[..];
    var chs := p.h * p.w - 1;
    assert chs == Index(p.w, p.h, 0) - 1;
    hide Index, Area;
    var y := p.y + p.h - 1 - Y_OFFSET;
    IndexSteps(p.w, p.h - 1, p.w - 1);
    while y >= p.y - Y_OFFSET
      invariant p.y - Y_OFFSET - 1 <= y < p.y + p.h - Y_OFFSET
      invariant chs == Index(p.w, y - (p.y - Y_OFFSET), p.w - 1)
      invariant forall r, c :: OnScreen(r, c) ==>
        screen[r, c] == if p.Covers(r, c) && r > y + Y_OFFSET then Under(p, cells, r, c) else old(screen[r, c])
    {
      var x := p.x + p.w - 1 - X_OFFSET;
      while x >= p.x - X_OFFSET
        invariant p.x - X_OFFSET - 1 <= x < p.x + p.w - X_OFFSET
        invariant chs == Index(p.w, y - (p.y - Y_OFFSET), x - (p.x - X_OFFSET))
        invariant forall r, c :: OnScreen(r, c) ==>
          screen[r, c] ==
            if p.Covers(r, c) && (r > y + Y_OFFSET || (r == y + Y_OFFSET && c > x + X_OFFSET))
            then Under(p, cells, r, c) else old(screen[r, c])
      {
        IndexBound(p, y - (p.y - Y_OFFSET), x - (p.x - X_OFFSET));
        PutMain(screen, y, x, buf[chs]);
        IndexSteps(p.w, y - (p.y - Y_OFFSET), x - 1 - (p.x - X_OFFSET));
        x, chs := x - 1, chs - 1;
      }
      IndexSteps(p.w, y - 1 - (p.y - Y_OFFSET), p.w - 1);
      IndexSteps(p.w, y - (p.y - Y_OFFSET), -1);
      y := y - 1;
    }
  }

  /** Where `West` thinks the last cell of row r is: the start of the row is
      taken as r * maxx, one cell short per row, and the end as maxx + r cells
      further, which makes up for it. */
  lemma WestEnd(w: int, r: int)
    ensures r * (w - 1) + ((w - 1) + r) == Index(w, r, w - 1)
  {
    assert r * (w - 1) == r * w - r;
  }

  /** Column by column from the right, with one running end per row. */
  method ShutdownWindowGravityWest(screen: array2<Cell>, p: Pane, buf: array<Cell>)
    requires Sized(screen) && p.Valid() && Area(p) <= buf.Length
    modifies screen
    ensures Restored(screen, p, buf[..])
  {
    hide Index, Area;
    ghost var cells := buf[..];
    var maxx := p.w - 1;
    var e := new int[p.h];
    for i := 0 to p.h
      invariant unchanged(screen)
      invariant forall r :: 0 <= r < i ==> e[r] == Index(p.w, r, maxx)
    {
      var s := i * maxx;
      e[i] := s + (maxx + i);
      WestEnd(p.w, i);
    }
    var x := p.x + p.w - 1 - X_OFFSET;
    while x >= p.x - X_OFFSET
      invariant p.x - X_OFFSET - 1 <= x < p.x + p.w - X_OFFSET
      invariant forall r :: 0 <= r < p.h ==> e[r] == Index(p.w, r, x - (p.x - X_OFFSET))
      invariant forall r, c :: OnScreen(r, c) ==>
        screen[r, c] == if p.Covers(r, c) && c > x + X_OFFSET then Under(p, cells, r, c) else old(screen[r, c])
    {
      var y := p.y - Y_OFFSET;
      while y < p.y + p.h - Y_OFFSET
        invariant p.y - Y_OFFSET <= y <= p.y + p.h - Y_OFFSET
        invariant forall r :: 0 <= r < p.h ==>
          e[r] == Index(p.w, r, x - (p.x - X_OFFSET)) - (if r < y - (p.y - Y_OFFSET) then 1 else 0)
        invariant forall r, c :: OnScreen(r, c) ==>
          screen[r, c] ==
            if p.Covers(r, c) && (c > x + X_OFFSET || (c == x + X_OFFSET && r < y + Y_OFFSET))
            then Under(p, cells, r, c) else old(screen[r, c])
      {
        var i := y - (p.y - Y_OFFSET);
        IndexBound(p, i, x - (p.x - X_OFFSET));
        PutMain(screen, y, x, buf[e[i]]);
        e[i] := e[i] - 1;
        y := y + 1;
      }
      forall r | 0 <= r < p.h ensures e[r] == Index(p.w, r, x - 1 - (p.x - X_OFFSET)) {
        IndexSteps(p.w, r, x - 1 - (p.x - X_OFFSET));
      }
      x := x - 1;
    }
  }

  /** The copying loop of `SaveUnders`. */
  method Grab(screen: array2<Cell>, p: Pane, buf: array<Cell>)
    requires Sized(screen) && p.Valid() && Area(p) <= buf.Length
    modifies buf
    ensures forall r, c :: p.Covers(r, c) ==> Under(p, buf[..], r, c) == screen[r, c]
  {
    hide Index, Area;
    var b := 0;
    var y := p.y;
    IndexSteps(p.w, 0, 0);
    while y < p.y + p.h
      invariant p.y <= y <= p.y + p.h && b == Index(p.w, y - p.y, 0)
      invariant forall r, c :: p.Covers(r, c) && r < y ==> Under(p, buf[..], r, c) == screen[r, c]
    {
      var x := p.x;
      while x < p.x + p.w
        invariant p.x <= x <= p.x + p.w && b == Index(p.w, y - p.y, x - p.x)
        invariant forall r, c :: p.Covers(r, c) && (r < y || (r == y && c < x)) ==>
          Under(p, buf[..], r, c) == screen[r, c]
      {
        IndexBound(p, y - p.y, x - p.x);
        ghost var was := buf[..];
        buf[b] := screen[y, x];
        assert buf[..] == was[b := screen[y, x]];
        forall r, c | p.Covers(r, c) && (r < y || (r == y && c < x))
          ensures Under(p, buf[..], r, c) == Under(p, was, r, c)
        {
          IndexBound(p, r - p.y, c - p.x);
          if Index(p.w, r - p.y, c - p.x) == b { IndexInjective(p.w, r - p.y, c - p.x, y - p.y, x - p.x); }
        }
        IndexSteps(p.w, y - p.y, x - p.x);
        x, b := x + 1, b + 1;
      }
      IndexSteps(p.w, y - p.y, 0);
      y := y + 1;
    }
  }

  /** The window's own cells are on the screen, and nothing else has changed. */
  twostate predicate Painted(screen: array2<Cell>, p: Pane)
    requires Sized(screen) && p.Valid()
    reads screen
  {
    forall r, c :: OnScreen(r, c) ==>
      screen[r, c] == if p.Covers(r, c) then p.text[r - p.y][c - p.x] else old(screen[r, c])
  }

  /** `touchwin` and `wrefresh`. */
  method Paint(screen: array2<Cell>, p: Pane)
    requires Sized(screen) && p.Valid()
    modifies screen
    ensures Painted(screen, p)
  {
    forall r, c | p.y <= r < p.y + p.h && p.x <= c < p.x + p.w {
      screen[r, c] := p.text[r - p.y][c - p.x];
    }
  }
}
