/** The line editor of src/input.c: a buffer of 510 characters, the cursor, and
    the window of it that is shown. */
module InputLine {

  const BUF_SZ := 510
  const VISIBLE := 71

  predicate IsSpace(c: char) { c == ' ' || '\t' <= c <= '\r' }

  // ------------------------------------------------------- the reference

  /** A line of text with a cursor in it. */
  datatype Line = Line(text: string, cursor: nat)

  predicate Ok(l: Line) { l.cursor <= |l.text| <= BUF_SZ }

  datatype Key = Char(c: char) | Backspace(n: nat) | DeleteWord | Truncate | Left | Right | Start | End | Clear

  function Min(a: int, b: int): int { if a < b then a else b }

  /** The place behind the last space that has a character between it and the
      cursor, or the start of the line. */
  function WordStart(s: string, n: nat): (w: nat)
    requires n <= |s|
    ensures w <= n && (w > 0 ==> IsSpace(s[w - 1]) && w < n) && forall k :: w <= k < n - 1 ==> !IsSpace(s[k])
    decreases n
  {
    if n <= 1 then 0
    else if IsSpace(s[n - 2]) then n - 1
    else WordStart(s[..n - 1], n - 1)
  }

  function Edit(l: Line, k: Key): (m: Line)
    requires Ok(l)
    ensures Ok(m)
  {
    var s, c := l.text, l.cursor;
    match k
    case Char(x) => if |s| < BUF_SZ then Line(s[..c] + [x] + s[c..], c + 1) else l
    case Backspace(n) => var d := Min(n, c); Line(s[..c - d] + s[c..], c - d)
    case DeleteWord => var w := WordStart(s[..c], c); Line(s[..w] + s[c..], w)
    case Truncate => Line(s[..c], c)
    case Left => Line(s, if c > 0 then c - 1 else c)
    case Right => Line(s, if c < |s| then c + 1 else c)
    case Start => Line(s, 0)
    case End => Line(s, |s|)
    case Clear => Line("", 0)
  }

  /** What a key does to a line that has a in front of the cursor and b behind it. */
  lemma EditMeans(a: string, b: string, x: char, n: nat)
    requires |a| + |b| <= 510
    ensures var l := Line(a + b, |a|);
            && Edit(l, Char(x)) == (if |a| + |b| < 510 then Line(a + [x] + b, |a| + 1) else l)
            && (n <= |a| ==> Edit(l, Backspace(n)) == Line(a[..|a| - n] + b, |a| - n))
            && (n > |a| ==> Edit(l, Backspace(n)) == Line(b, 0))
            && Edit(l, Truncate) == Line(a, |a|) && Edit(l, Clear) == Line("", 0)
            && Edit(l, Left) == Line(a + b, if a == "" then 0 else |a| - 1)
            && Edit(l, Right) == Line(a + b, if b == "" then |a| else |a| + 1)
            && Edit(l, Start) == Line(a + b, 0) && Edit(l, End) == Line(a + b, |a| + |b|)
  {
    hide WordStart;
    var s := a + b;
    assert s[..|a|] == a && s[|a|..] == b;
    assert n <= |a| ==> s[..|a| - n] == a[..|a| - n];
    assert s[..0] + b == b;
  }

  /** A word goes with what is between it and the cursor, which is one space at most. */
  lemma DeleteWordMeans(a: string, word: string, b: string)
    requires |a| + |word| + |b| <= 510 && (a != "" ==> IsSpace(a[|a| - 1]) && word != "")
    requires forall k :: 0 <= k < |word| - 1 ==> !IsSpace(word[k])
    ensures Edit(Line(a + word + b, |a| + |word|), DeleteWord) == Line(a + b, |a|)
  {
    hide IsSpace;
    var s, n := a + word + b, |a| + |word|;
    assert s[..n] == a + word && s[n..] == b && s[..|a|] == a;
    forall k | |a| <= k < n - 1 ensures !IsSpace((a + word)[k]) { assert (a + word)[k] == word[k - |a|]; }
    WordStartIs(a + word, n, |a|);
  }

  function EditAll(l: Line, ks: seq<Key>): (m: Line)
    requires Ok(l)
    ensures Ok(m)
    decreases |ks|
  {
    if ks == [] then l else EditAll(Edit(l, ks[0]), ks[1..])
  }

  /** Typing characters and taking as many back restores the line, as long as they
      all fit. */
  lemma {:induction false} TypedAndTakenBack(l: Line, xs: string)
    requires Ok(l) && |l.text| + |xs| <= BUF_SZ
    ensures var t := Typed(l, xs); Ok(t) && Edit(t, Backspace(|xs|)) == l
    decreases |xs|
  {
    var c := l.cursor;
    TypedIs(l, xs);
    var t := Typed(l, xs);
    assert t.text[..c] == l.text[..c] && t.text[c + |xs|..] == l.text[c..];
    assert l.text[..c] + l.text[c..] == l.text;
  }

  function Typed(l: Line, xs: string): (t: Line)
    requires Ok(l)
    ensures Ok(t)
    decreases |xs|
  {
    if xs == [] then l else Typed(Edit(l, Char(xs[0])), xs[1..])
  }

  lemma {:induction false} TypedIs(l: Line, xs: string)
    requires Ok(l) && |l.text| + |xs| <= BUF_SZ
    ensures Typed(l, xs) == Line(l.text[..l.cursor] + xs + l.text[l.cursor..], l.cursor + |xs|)
    decreases |xs|
  {
    var s, c := l.text, l.cursor;
    if xs == [] {
      assert s[..c] + xs + s[c..] == s;
    } else {
      var m := Edit(l, Char(xs[0]));
      TypedIs(m, xs[1..]);
      assert m.text[..c + 1] == s[..c] + [xs[0]] && m.text[c + 1..] == s[c..];
      assert s[..c] + [xs[0]] + xs[1..] == s[..c] + xs;
    }
  }

  // ------------------------------------------------------------ the program

  class Editor {
    const dst_buf: array<char>
    var in_buf: nat                  // the cursor
    var in_buflen: nat
    var start_win: int
    var end_win: int

    ghost function Now(): Line
      reads this, dst_buf
      requires in_buflen <= dst_buf.Length
    {
      Line(dst_buf[..in_buflen], in_buf)
    }

    /** The line fits its buffer, and the cursor is in the window or just behind it. */
    ghost predicate Valid()
      reads this, dst_buf
    {
      && dst_buf.Length == BUF_SZ + 1 && in_buf <= in_buflen <= BUF_SZ
      && 0 <= start_win <= in_buf <= start_win + VISIBLE && end_win == start_win + VISIBLE - 1
    }

    constructor ()
      ensures Valid() && Now() == Line("", 0) && fresh(dst_buf)
    {
      dst_buf := new char[BUF_SZ + 1];
      in_buf, in_buflen, start_win, end_win := 0, 0, 0, VISIBLE - 1;
    }

    /** `NewCursorPos` moves the window no more than the cursor needs, but jumps a
        whole width when it must go back. */
    method NewCursorPos(to: nat)
      requires dst_buf.Length == BUF_SZ + 1 && to <= in_buflen <= BUF_SZ
      requires 0 <= start_win && end_win == start_win + VISIBLE - 1
      modifies this`in_buf, this`start_win, this`end_win
      ensures Valid() && in_buf == to
      ensures start_win == if to > old(end_win) then to - VISIBLE
                           else if to < old(start_win) then (if to < VISIBLE then 0 else to - VISIBLE)
                           else old(start_win)
    {
      if to > end_win {
        start_win := to;
        start_win := start_win - VISIBLE * 10 / 10;
        in_buf := to;
        end_win := start_win + VISIBLE - 1;
      } else if to < start_win {
        start_win := to;
        start_win := start_win - VISIBLE * 10 / 10;
        if start_win < 0 { start_win := 0; }
        in_buf := to;
        end_win := start_win + VISIBLE - 1;
      } else {
        in_buf := to;
      }
    }

    /** `memmove` by one to the right */
    method MoveUp(from: nat, n: nat)
      requires from + n < dst_buf.Length
      modifies dst_buf
      ensures forall k :: 0 <= k <= from ==> dst_buf[k] == old(dst_buf[k])
      ensures forall k :: from < k <= from + n ==> dst_buf[k] == old(dst_buf[k - 1])
      ensures forall k :: from + n < k < dst_buf.Length ==> dst_buf[k] == old(dst_buf[k])
    {
      var j := n;
      while j > 0
        invariant 0 <= j <= n
        invariant forall k :: 0 <= k <= from + j ==> dst_buf[k] == old(dst_buf[k])
        invariant forall k :: from + j < k <= from + n ==> dst_buf[k] == old(dst_buf[k - 1])
        invariant forall k :: from + n < k < dst_buf.Length ==> dst_buf[k] == old(dst_buf[k])
      {
        dst_buf[from + j] := dst_buf[from + j - 1];
        j := j - 1;
      }
    }

    /** `memcpy` to the left */
    method MoveDown(to: nat, from: nat, n: nat)
      requires to <= from && from + n <= dst_buf.Length
      modifies dst_buf
      ensures forall k :: 0 <= k < to ==> dst_buf[k] == old(dst_buf[k])
      ensures forall k :: to <= k < to + n ==> dst_buf[k] == old(dst_buf[from + (k - to)])
    {
      var p := to;
      while p < to + n
        invariant to <= p <= to + n
        invariant forall k :: 0 <= k < to ==> dst_buf[k] == old(dst_buf[k])
        invariant forall k :: to <= k < p ==> dst_buf[k] == old(dst_buf[from + (k - to)])
        invariant forall k :: p <= k < dst_buf.Length ==> dst_buf[k] == old(dst_buf[k])
      {
        dst_buf[p] := dst_buf[from + (p - to)];
        p := p + 1;
      }
    }

    method Addchar(c: char)
      requires Valid()
      modifies this, dst_buf
      ensures Valid() && Now() == Edit(old(Now()), Char(c))
    {
      if in_buflen < BUF_SZ {
        if in_buf != in_buflen { MoveUp(in_buf, in_buflen - in_buf); }
        dst_buf[in_buf] := c;
        in_buflen := in_buflen + 1;
        NewCursorPos(in_buf + 1);
        ghost var s, t := old(dst_buf[..in_buflen]), dst_buf[..in_buflen];
        assert t == s[..old(in_buf)] + [c] + s[old(in_buf)..];
      }
    }

    method Delchar(count0: int)
      requires Valid() && count0 >= 0
      modifies this, dst_buf
      ensures Valid() && Now() == Edit(old(Now()), Backspace(count0))
    {
      var count := count0;
      if count > in_buf { count := in_buf; }
      ghost var s := dst_buf[..in_buflen];
      if count != 0 {
        if in_buf != in_buflen { MoveDown(in_buf - count, in_buf, in_buflen - in_buf); }
        in_buflen := in_buflen - count;
        NewCursorPos(in_buf - count);
      } else {
        assert s[..in_buf] + s[in_buf..] == s;
      }
      assert dst_buf[..in_buflen] == s[..old(in_buf) - count] + s[old(in_buf)..];
    }

    /** `BDelword`.  The cell before the buffer, which the last step of the search
        may look at, does not matter: what is left of the cursor goes either way. */
    method BDelword(before: char)
      requires Valid()
      modifies this, dst_buf
      ensures Valid() && Now() == Edit(old(Now()), DeleteWord)
    {
      var off: int := in_buf - 1;
      var count: int := off;
      ghost var s := dst_buf[..in_buf];
      var more := true;
      while more
        invariant -2 <= off <= in_buf - 1
        invariant more ==> -1 <= off && forall k :: 0 <= k && off <= k < in_buf - 1 ==> !IsSpace(s[k])
        invariant !more ==> off < 0 || (off < in_buf - 1 && IsSpace(s[off]))
        invariant !more ==> forall k :: 0 <= k && off < k < in_buf - 1 ==> !IsSpace(s[k])
        decreases more, off
      {
        if off >= 0 {
          off := off - 1;
          more := !IsSpace(if off >= 0 then dst_buf[off] else before);
        } else {
          off := off - 1;
          more := false;
        }
      }
      WordStartIs(s, in_buf, if off < 0 then 0 else off + 1);
      assert dst_buf[..in_buflen][..in_buf] == s;
      Delchar(count - off);
    }

    /** `FDelchar`: one character after the other goes, up to the end of the line. */
    method FDelchar()
      requires Valid()
      modifies this, dst_buf
      ensures Valid() && Now() == Edit(old(Now()), Truncate)
    {
      ghost var s := dst_buf[..in_buflen];
      while in_buflen > 0 && in_buf < in_buflen
        invariant Valid() && in_buf == old(in_buf)
        invariant forall k :: 0 <= k < in_buf ==> dst_buf[k] == s[k]
      {
        MoveDown(in_buf, in_buf + 1, in_buflen - in_buf - 1);
        in_buflen := in_buflen - 1;
      }
      assert dst_buf[..in_buflen] == s[..in_buf];
    }

    method GoLeft()
      requires Valid()
      modifies this
      ensures Valid() && Now() == Edit(old(Now()), Left)
    {
      if in_buf > 0 { NewCursorPos(in_buf - 1); }
    }

    method GoRight()
      requires Valid()
      modifies this
      ensures Valid() && Now() == Edit(old(Now()), Right)
    {
      if in_buf < in_buflen { NewCursorPos(in_buf + 1); }
    }

    method GoLineStart()
      requires Valid()
      modifies this
      ensures Valid() && Now() == Edit(old(Now()), Start)
    {
      NewCursorPos(0);
    }

    method GoLineEnd()
      requires Valid()
      modifies this
      ensures Valid() && Now() == Edit(old(Now()), End)
    {
      NewCursorPos(in_buflen);
    }

    method Delline()
      requires Valid()
      modifies this, dst_buf
      ensures Valid() && Now() == Edit(old(Now()), Clear)
    {
      in_buf, start_win := 0, 0;
      end_win := start_win + VISIBLE - 1;
      dst_buf[in_buf + BUF_SZ] := 0 as char;
      in_buflen := 0;
    }

    method Press(k: Key, before: char)
      requires Valid()
      modifies this, dst_buf
      ensures Valid() && Now() == Edit(old(Now()), k)
    {
      match k
      case Char(c) => Addchar(c);
      case Backspace(n) => Delchar(n);
      case DeleteWord => BDelword(before);
      case Truncate => FDelchar();
      case Left => GoLeft();
      case Right => GoRight();
      case Start => GoLineStart();
      case End => GoLineEnd();
      case Clear => Delline();
    }

    /** Any run of keys. */
    method Session(ks: seq<Key>, before: char)
      requires Valid()
      modifies this, dst_buf
      ensures Valid() && Now() == EditAll(old(Now()), ks)
    {
      hide Edit;
      for i := 0 to |ks|
        invariant Valid() && EditAll(Now(), ks[i..]) == EditAll(old(Now()), ks)
      {
        assert ks[i..][1..] == ks[i + 1..];
        Press(ks[i], before);
      }
    }
  }

  lemma {:induction false} WordStartIs(s: string, n: nat, w: nat)
    requires n <= |s| && w <= n && (w > 0 ==> w < n && IsSpace(s[w - 1])) && forall k :: w <= k < n - 1 ==> !IsSpace(s[k])
    ensures WordStart(s, n) == w
    decreases n
  {
    var v := WordStart(s, n);
    assert w == 0 || IsSpace(s[w - 1]);
    assert v == 0 || IsSpace(s[v - 1]);
  }
}
