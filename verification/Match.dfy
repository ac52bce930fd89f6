/** The wildcard matcher of src/match.c.

    A pattern is read from its right end.  `Tokens` turns a pattern into the
    list of its tokens, `Globs` is the textbook meaning of such a list, and
    `Match` is the loop of the source: it keeps only the last `*` seen and
    backtracks to that one alone. */
module Match {
  import opened CString

  // ---------------------------------------------------------------- tokens

  datatype Token =
    | Literal(c: Byte)     // an ordinary or a quoted character
    | Percent              // an unquoted '%' that no '*' has absorbed
    | Any                  // '?'
    | Star                 // a run of '*' and '%' ending in '*'

  /** The character that ends p[..k] is quoted when a backslash precedes it,
      whatever precedes the backslash. */
  predicate Quoted(p: seq<Byte>, k: nat)
    requires 0 < k <= |p|
  {
    k >= 2 && p[k - 2] == BACKSLASH
  }

  predicate IsRun(c: Byte) { c == STAR || c == PERCENT }

  /** Where the scan stands after the `*` ending p[..k]: the neighbouring `*`
      and `%` to its left are absorbed, except one that is quoted. */
  function RunEnd(p: seq<Byte>, k: nat): (r: nat)
    requires k <= |p|
    ensures r <= k
  {
    if k == 0 || !IsRun(p[k - 1]) || Quoted(p, k) then k else RunEnd(p, k - 1)
  }

  /** Is there an unquoted `*` at the end of p[..k]? */
  predicate AtStar(p: seq<Byte>, k: nat)
    requires k <= |p|
  {
    k > 0 && p[k - 1] == STAR && !Quoted(p, k)
  }

  /** The part of p[..k] left of its last token. */
  function Rest(p: seq<Byte>, k: nat): (r: nat)
    requires 0 < k <= |p|
    ensures r < k
  {
    if Quoted(p, k) then k - 2
    else if p[k - 1] == STAR then RunEnd(p, k - 1)
    else k - 1
  }

  /** The last token of p[..k]. */
  function LastToken(p: seq<Byte>, k: nat): Token
    requires 0 < k <= |p|
  {
    if Quoted(p, k) then Literal(p[k - 1])
    else if p[k - 1] == STAR then Star
    else if p[k - 1] == QUESTION then Any
    else if p[k - 1] == PERCENT then Percent
    else Literal(p[k - 1])
  }

  /** The tokens of p[..k], in reading order. */
  function Tokens(p: seq<Byte>, k: nat): seq<Token>
    requires k <= |p|
  {
    if k == 0 then [] else Tokens(p, Rest(p, k)) + [LastToken(p, k)]
  }

  /** The number of tokens that stand for one character of their own. */
  function Literals(ts: seq<Token>): nat {
    if ts == [] then 0
    else Literals(ts[..|ts| - 1]) +
         (if ts[|ts| - 1].Literal? || ts[|ts| - 1].Percent? then 1 else 0)
  }

  // --------------------------------------------------------------- meaning

  predicate MatchesOne(x: Token, c: Byte)
    requires !x.Star?
  {
    match x
    case Literal(d) => Fold(d) == Fold(c)
    case Percent => c == PERCENT
    case Any => true
  }

  /** The usual meaning of a token list, read from the left. */
  ghost predicate Globs(ts: seq<Token>, t: seq<Byte>) {
    if ts == [] then t == []
    else if ts[0].Star? then exists i :: 0 <= i <= |t| && Globs(ts[1..], t[i..])
    else t != [] && MatchesOne(ts[0], t[0]) && Globs(ts[1..], t[1..])
  }

  predicate Runs(ts: seq<Token>) {
    forall i :: 0 <= i < |ts| ==> ts[i].Star? || ts[i].Percent?
  }

  /** `%` signs at the very front of a pattern are optional. */
  ghost predicate DropsTo(ts: seq<Token>, t: seq<Byte>, d: nat) {
    d <= |ts| && Runs(ts[..d]) && Globs(ts[d..], t)
  }

  ghost predicate Accepts(ts: seq<Token>, t: seq<Byte>) {
    exists d: nat :: DropsTo(ts, t, d)
  }

  // ------------------------------------------------- reading from the right

  lemma {:induction false} GlobsSnocOne(ts: seq<Token>, x: Token, t: seq<Byte>)
    requires !x.Star?
    ensures Globs(ts + [x], t) <==> t != [] && MatchesOne(x, t[|t| - 1]) && Globs(ts, t[..|t| - 1])
  {
    if ts == [] {
      assert ts + [x] == [x] && [x][1..] == [];
    } else {
      assert (ts + [x])[1..] == ts[1..] + [x];
      if ts[0].Star? {
        if Globs(ts + [x], t) {
          var i :| 0 <= i <= |t| && Globs(ts[1..] + [x], t[i..]);
          GlobsSnocOne(ts[1..], x, t[i..]);
          assert t[i..][..|t| - i - 1] == t[..|t| - 1][i..];
        }
        if t != [] && MatchesOne(x, t[|t| - 1]) && Globs(ts, t[..|t| - 1]) {
          var i :| 0 <= i <= |t| - 1 && Globs(ts[1..], t[..|t| - 1][i..]);
          assert t[i..][..|t| - i - 1] == t[..|t| - 1][i..];
          GlobsSnocOne(ts[1..], x, t[i..]);
          assert Globs((ts + [x])[1..], t[i..]);
        }
      } else if t != [] {
        GlobsSnocOne(ts[1..], x, t[1..]);
        if |t| > 1 { assert t[1..][..|t| - 2] == t[..|t| - 1][1..]; }
      }
    }
  }

  lemma {:induction false} GlobsSnocStar(ts: seq<Token>, t: seq<Byte>)
    ensures Globs(ts + [Star], t) <==> exists i :: 0 <= i <= |t| && Globs(ts, t[..i])
  {
    if ts == [] {
      assert ts + [Star] == [Star] && [Star][1..] == [];
      assert t[|t|..] == [] && t[..0] == [];
      assert Globs([], t[|t|..]) && Globs([], t[..0]);
    } else {
      assert (ts + [Star])[1..] == ts[1..] + [Star];
      if ts[0].Star? {
        if Globs(ts + [Star], t) {
          var i :| 0 <= i <= |t| && Globs(ts[1..] + [Star], t[i..]);
          GlobsSnocStar(ts[1..], t[i..]);
          var h :| 0 <= h <= |t| - i && Globs(ts[1..], t[i..][..h]);
          assert t[i..][..h] == t[..i + h][i..];
          assert Globs(ts, t[..i + h]);
        }
        if e :| 0 <= e <= |t| && Globs(ts, t[..e]) {
          var i :| 0 <= i <= e && Globs(ts[1..], t[..e][i..]);
          assert t[i..][..e - i] == t[..e][i..];
          GlobsSnocStar(ts[1..], t[i..]);
          assert Globs(ts[1..] + [Star], t[i..]);
        }
      } else if t != [] {
        GlobsSnocStar(ts[1..], t[1..]);
        if Globs(ts + [Star], t) {
          var h :| 0 <= h <= |t| - 1 && Globs(ts[1..], t[1..][..h]);
          assert t[1..][..h] == t[..h + 1][1..];
          assert Globs(ts, t[..h + 1]);
        }
        if e :| 0 <= e <= |t| && Globs(ts, t[..e]) {
          assert t[1..][..e - 1] == t[..e][1..];
        }
      }
    }
  }

  /** The matcher's own view: p[..k] against t[..j], right end first. */
  ghost predicate Fits(p: seq<Byte>, k: nat, t: seq<Byte>, j: nat)
    requires k <= |p| && j <= |t|
  {
    if j == 0 then AllRun(p, k)
    else if k == 0 then false
    else if AtStar(p, k) then exists i :: 0 <= i <= j && Fits(p, Rest(p, k), t, i)
    else MatchesOne(LastToken(p, k), t[j - 1]) && Fits(p, Rest(p, k), t, j - 1)
  }

  predicate AllRun(p: seq<Byte>, k: nat)
    requires k <= |p|
  {
    forall i :: 0 <= i < k ==> IsRun(p[i])
  }

  lemma {:induction false} RunEndAbsorbs(p: seq<Byte>, k: nat)
    requires k <= |p|
    ensures forall i :: RunEnd(p, k) <= i < k ==> IsRun(p[i])
    ensures AllRun(p, k) ==> RunEnd(p, k) == 0
    ensures RunEnd(p, k) > 0 ==> Quoted(p, RunEnd(p, k)) || !IsRun(p[RunEnd(p, k) - 1])
  {
    if k > 0 && IsRun(p[k - 1]) && !Quoted(p, k) { RunEndAbsorbs(p, k - 1); }
  }

  lemma RunsSnoc(ts: seq<Token>, x: Token)
    ensures Runs(ts + [x]) <==> Runs(ts) && (x.Star? || x.Percent?)
  {
    var us := ts + [x];
    assert us[|ts|] == x;
    assert forall i :: 0 <= i < |ts| ==> us[i] == ts[i];
  }

  lemma {:induction false} TokensOfRun(p: seq<Byte>, k: nat)
    requires k <= |p|
    ensures Runs(Tokens(p, k)) <==> AllRun(p, k)
  {
    if k > 0 {
      var r, x := Rest(p, k), LastToken(p, k);
      TokensOfRun(p, r);
      RunsSnoc(Tokens(p, r), x);
      if Quoted(p, k) {
        assert !IsRun(p[k - 2]);
      } else if AtStar(p, k) {
        RunEndAbsorbs(p, k - 1);
        assert AllRun(p, k) <==> AllRun(p, r);
      }
    }
  }

  lemma {:induction false} AcceptsEmpty(ts: seq<Token>)
    ensures Accepts(ts, []) <==> Runs(ts)
  {
    if Runs(ts) {
      assert ts[..|ts|] == ts && ts[|ts|..] == [];
      assert DropsTo(ts, [], |ts|);
    }
    if Accepts(ts, []) {
      var d: nat :| DropsTo(ts, [], d);
      GlobsEmpty(ts[d..]);
      forall i | 0 <= i < |ts| ensures ts[i].Star? || ts[i].Percent? {
        if i < d { assert ts[i] == ts[..d][i]; } else { assert ts[i] == ts[d..][i - d]; }
      }
    }
  }

  lemma {:induction false} GlobsEmpty(ts: seq<Token>)
    requires Globs(ts, [])
    ensures Runs(ts)
  {
    if ts != [] {
      assert ts[0].Star?;
      var none: seq<Byte> := [];
      var i :| 0 <= i <= 0 && Globs(ts[1..], none[i..]);
      assert none[i..] == [];
      GlobsEmpty(ts[1..]);
      forall h | 0 <= h < |ts| ensures ts[h].Star? || ts[h].Percent? {
        if h > 0 { assert ts[h] == ts[1..][h - 1]; }
      }
    }
  }

  lemma AcceptsSnoc(ts: seq<Token>, x: Token, t: seq<Byte>)
    requires t != []
    ensures x.Star? ==> (Accepts(ts + [x], t) <==> exists i :: 0 <= i <= |t| && Accepts(ts, t[..i]))
    ensures !x.Star? ==>
      (Accepts(ts + [x], t) <==> MatchesOne(x, t[|t| - 1]) && Accepts(ts, t[..|t| - 1]))
  {
    var us := ts + [x];
    forall d: nat | d <= |ts| ensures us[..d] == ts[..d] && us[d..] == ts[d..] + [x] {}
    if Accepts(us, t) {
      var d: nat :| DropsTo(us, t, d);
      assert d <= |ts| by {
        if d == |us| { assert false; }
      }
      assert us[..d] == ts[..d] && us[d..] == ts[d..] + [x];
      if x.Star? {
        GlobsSnocStar(ts[d..], t);
        var i :| 0 <= i <= |t| && Globs(ts[d..], t[..i]);
        assert DropsTo(ts, t[..i], d);
      } else {
        GlobsSnocOne(ts[d..], x, t);
        assert DropsTo(ts, t[..|t| - 1], d);
      }
    }
    if x.Star? {
      if i :| 0 <= i <= |t| && Accepts(ts, t[..i]) {
        var d: nat :| DropsTo(ts, t[..i], d);
        GlobsSnocStar(ts[d..], t);
        assert DropsTo(us, t, d);
      }
    } else if MatchesOne(x, t[|t| - 1]) && Accepts(ts, t[..|t| - 1]) {
      var d: nat :| DropsTo(ts, t[..|t| - 1], d);
      GlobsSnocOne(ts[d..], x, t);
      assert DropsTo(us, t, d);
    }
  }

  /** Reading pattern and text from the right gives the usual meaning. */
  lemma {:induction false} FitsIsAccepts(p: seq<Byte>, k: nat, t: seq<Byte>, j: nat)
    requires k <= |p| && j <= |t|
    ensures Fits(p, k, t, j) <==> Accepts(Tokens(p, k), t[..j])
    decreases k
  {
    if j == 0 {
      assert t[..0] == [];
      AcceptsEmpty(Tokens(p, k));
      TokensOfRun(p, k);
    } else if k == 0 {
      forall d: nat ensures !DropsTo([], t[..j], d) {}
    } else {
      var r, x := Rest(p, k), LastToken(p, k);
      AcceptsSnoc(Tokens(p, r), x, t[..j]);
      assert t[..j][j - 1] == t[j - 1] && t[..j][..j - 1] == t[..j - 1];
      if AtStar(p, k) {
        forall i | 0 <= i <= j
          ensures Fits(p, r, t, i) <==> Accepts(Tokens(p, r), t[..j][..i])
        {
          FitsIsAccepts(p, r, t, i);
          assert t[..j][..i] == t[..i];
        }
      } else {
        FitsIsAccepts(p, r, t, j - 1);
      }
    }
  }

  // ------------------------------------------------ the last star is enough

  /** `n` tokens other than `*` lead from p[..a] to p[..b]. */
  predicate Walk(p: seq<Byte>, a: nat, b: nat, n: nat)
    requires a <= |p|
    decreases n
  {
    if n == 0 then a == b
    else a > 0 && !AtStar(p, a) && Walk(p, Rest(p, a), b, n - 1)
  }

  lemma {:induction false} WalkOn(p: seq<Byte>, a: nat, b: nat, n: nat)
    requires a <= |p| && 0 < b <= |p| && Walk(p, a, b, n) && !AtStar(p, b)
    ensures Walk(p, a, Rest(p, b), n + 1)
    decreases n
  {
    if n > 0 { WalkOn(p, Rest(p, a), b, n - 1); }
  }

  lemma {:induction false} RunStaysRun(p: seq<Byte>, a: nat, b: nat, n: nat)
    requires a <= |p| && Walk(p, a, b, n) && AllRun(p, a)
    ensures b <= a
    decreases n
  {
    if n > 0 { RunStaysRun(p, Rest(p, a), b, n - 1); }
  }

  /** Suppose the tokens between the last star and the next one to its left
      could also be placed further left in the text.  Then the text left of
      that other place already fits what lies beyond the next star, so the
      placement found first loses nothing. */
  lemma {:induction false} FirstPlaceSuffices(p: seq<Byte>, t: seq<Byte>, a: nat, b: nat, n: nat, i: nat)
    returns (e: nat)
    requires a <= |p| && 0 < b <= |p| && i <= |t|
    requires Walk(p, a, b, n) && AtStar(p, b) && Fits(p, a, t, i)
    ensures e <= (if i > n then i - n else 0) && Fits(p, Rest(p, b), t, e)
    decreases n
  {
    if i == 0 {
      RunStaysRun(p, a, b, n);
      RunEndAbsorbs(p, b - 1);
      e := 0;
    } else if n == 0 {
      e :| 0 <= e <= i && Fits(p, Rest(p, b), t, e);
    } else {
      e := FirstPlaceSuffices(p, t, Rest(p, a), b, n - 1, i - 1);
    }
  }

  /** A scan that used up the text leaves no room for an earlier placing. */
  lemma {:induction false} NoRoom(p: seq<Byte>, t: seq<Byte>, a: nat, b: nat, n: nat, i: nat)
    requires a <= |p| && b <= |p| && i <= n && i <= |t|
    requires Walk(p, a, b, n) && Fits(p, a, t, i)
    ensures AllRun(p, b)
    decreases n
  {
    if i == 0 {
      RunStaysRun(p, a, b, n);
    } else {
      NoRoom(p, t, Rest(p, a), b, n - 1, i - 1);
    }
  }

  /** Can p[..from] be placed strictly left of t[..place]? */
  ghost predicate Elsewhere(p: seq<Byte>, t: seq<Byte>, from: nat, place: nat)
    requires from <= |p| && place <= |t|
  {
    exists i :: 0 <= i < place && Fits(p, from, t, i)
  }

  /** What the loop still has to decide: the scan in hand, or a restart at the
      saved star. */
  ghost predicate Pending(p: seq<Byte>, t: seq<Byte>, from: nat, place: nat, saved: bool, k: nat, j: nat)
    requires from <= |p| && place <= |t| && k <= |p| && j <= |t|
  {
    Fits(p, k, t, j) || (saved && Elsewhere(p, t, from, place))
  }

  /** The loop invariant: the scan in hand started at the saved star, and what
      is pending decides the answer. */
  ghost predicate Sound(p: seq<Byte>, t: seq<Byte>, from: nat, place: nat, saved: bool, k: nat, j: nat, goal: bool)
    requires from <= |p| && place <= |t| && k <= |p| && j <= place
  {
    Walk(p, from, k, place - j) && (goal <==> Pending(p, t, from, place, saved, k, j))
  }

  lemma StepStar(p: seq<Byte>, t: seq<Byte>, from: nat, place: nat, saved: bool, k: nat, j: nat, goal: bool)
    requires from <= |p| && place <= |t| && k <= |p| && 0 < j <= place
    requires Sound(p, t, from, place, saved, k, j, goal) && AtStar(p, k)
    ensures Sound(p, t, Rest(p, k), j, true, Rest(p, k), j, goal)
  {
    if i :| saved && 0 <= i < place && Fits(p, from, t, i) {
      var e := FirstPlaceSuffices(p, t, from, k, place - j, i);
      assert Fits(p, k, t, j);
    }
    FitsAtStar(p, t, k, j);
  }

  lemma FitsAtStar(p: seq<Byte>, t: seq<Byte>, k: nat, j: nat)
    requires k <= |p| && 0 < j <= |t| && AtStar(p, k)
    ensures Fits(p, k, t, j) <==> Pending(p, t, Rest(p, k), j, true, Rest(p, k), j)
  {
    var r := Rest(p, k);
    assert Fits(p, k, t, j) == exists i :: 0 <= i <= j && Fits(p, r, t, i);
    if i :| 0 <= i <= j && Fits(p, r, t, i) {
      assert i == j || Elsewhere(p, t, r, j);
    }
  }

  /** One text character against one token that is not a star. */
  lemma StepOne(p: seq<Byte>, t: seq<Byte>, from: nat, place: nat, saved: bool, k: nat, j: nat, goal: bool)
    requires from <= |p| && place <= |t| && 0 < k <= |p| && 0 < j <= place
    requires Sound(p, t, from, place, saved, k, j, goal)
    requires !AtStar(p, k) && MatchesOne(LastToken(p, k), t[j - 1])
    ensures Sound(p, t, from, place, saved, Rest(p, k), j - 1, goal)
  {
    WalkOn(p, from, k, place - j);
  }

  /** A mismatch: give up, or restart at the saved star one place further left. */
  lemma StepFail(p: seq<Byte>, t: seq<Byte>, from: nat, place: nat, saved: bool, k: nat, j: nat, goal: bool)
    requires from <= |p| && 0 < place <= |t| && k <= |p| && 0 < j <= place
    requires Sound(p, t, from, place, saved, k, j, goal)
    requires k > 0 ==> !AtStar(p, k) && !MatchesOne(LastToken(p, k), t[j - 1])
    ensures !saved ==> !goal
    ensures saved ==> Sound(p, t, from, place - 1, place > 1, from, place - 1, goal)
  {
    assert !Fits(p, k, t, j);
    if Fits(p, from, t, place - 1) { assert 0 <= place - 1 < place; }
  }

  /** The text is used up: only leading `*` and `%` may remain. */
  lemma StepEnd(p: seq<Byte>, t: seq<Byte>, from: nat, place: nat, saved: bool, k: nat, goal: bool)
    requires from <= |p| && place <= |t| && k <= |p| && Sound(p, t, from, place, saved, k, 0, goal)
    ensures goal <==> AllRun(p, k)
  {
    if i :| saved && 0 <= i < place && Fits(p, from, t, i) {
      NoRoom(p, t, from, k, place, i);
    }
  }

  // ----------------------------------------------------------------- score

  /** The number of such tokens in p[..k], counted from the right. */
  function Score(p: seq<Byte>, k: nat): (s: nat)
    requires k <= |p|
    ensures s <= k
  {
    if k == 0 then 0
    else Score(p, Rest(p, k)) + (if Quoted(p, k) || (p[k - 1] != STAR && p[k - 1] != QUESTION) then 1 else 0)
  }

  lemma ScoreStep(p: seq<Byte>, k: nat)
    requires 0 < k <= |p|
    ensures Score(p, k) == Score(p, Rest(p, k)) + (if Quoted(p, k) || (p[k - 1] != STAR && p[k - 1] != QUESTION) then 1 else 0)
  {}

  lemma {:induction false} ScoreIsLiterals(p: seq<Byte>, k: nat)
    requires k <= |p|
    ensures Score(p, k) == Literals(Tokens(p, k))
  {
    if k > 0 {
      var ts, x := Tokens(p, Rest(p, k)), LastToken(p, k);
      assert (ts + [x])[..|ts|] == ts;
      ScoreIsLiterals(p, Rest(p, k));
    }
  }

  /** How many `%` signs, at most, the front of the pattern may drop. */
  function FrontPercents(p: seq<Byte>): (f: nat)
    ensures f <= |p|
  {
    if p == [] || !IsRun(p[0]) then 0
    else (if p[0] == PERCENT then 1 else 0) + FrontPercents(p[1..])
  }

  lemma {:induction false} FrontPercentsMonotone(p: seq<Byte>, k: nat)
    requires k <= |p|
    ensures FrontPercents(p[..k]) <= FrontPercents(p)
    decreases k
  {
    if k > 0 {
      assert p[..k][1..] == p[1..][..k - 1];
      FrontPercentsMonotone(p[1..], k - 1);
    } else {
      assert p[..0] == [];
    }
  }

  lemma {:induction false} FrontPercentsSnoc(q: seq<Byte>, c: Byte)
    requires AllRun(q, |q|) && IsRun(c)
    ensures FrontPercents(q + [c]) == FrontPercents(q) + (if c == PERCENT then 1 else 0)
  {
    if q == [] {
      assert (q + [c])[1..] == [];
    } else {
      assert (q + [c])[1..] == q[1..] + [c];
      FrontPercentsSnoc(q[1..], c);
    }
  }

  lemma {:induction false} RunLiterals(p: seq<Byte>, k: nat)
    requires k <= |p| && AllRun(p, k)
    ensures Score(p, k) <= FrontPercents(p[..k])
  {
    if k > 0 {
      RunLiterals(p, Rest(p, k));
      FrontPercentsMonotone(p[..k - 1], Rest(p, k));
      assert p[..k - 1][..Rest(p, k)] == p[..Rest(p, k)];
      FrontPercentsSnoc(p[..k - 1], p[k - 1]);
      assert p[..k - 1] + [p[k - 1]] == p[..k];
    }
  }

  // --------------------------------------------------------------- matcher

  /** `x & UNQUOTED`, the low fifteen bits. */
  function Masked(x: nat): nat { x % 0x8000 }

  lemma MaskedLow(x: nat, low: nat, high: nat)
    requires low < 0x8000 && x == low + 0x8000 * high
    ensures Masked(x) == low
  {}

  /** The `do ... while` that runs over the neighbours of a `*`. */
  method SkipRun(p: seq<Byte>, start: nat) returns (m: int)
    requires start < |p| && AtStar(p, start + 1)
    ensures m == Rest(p, start + 1) - 1
  {
    m := start - 1;
    while m >= 0 && IsRun(p[m])
      invariant -1 <= m < start
      invariant (RunEnd(p, start) == RunEnd(p, m + 1) && (m >= 0 ==> p[m] != BACKSLASH)) ||
                (m >= 0 && p[m] == BACKSLASH && RunEnd(p, start) == m + 2)
    {
      m := m - 1;
    }
    if m >= 0 && p[m] == BACKSLASH { m := m + 1; }
  }

  lemma StepInit(p: seq<Byte>, t: seq<Byte>)
    ensures Sound(p, t, |p|, |t|, false, |p|, |t|, Fits(p, |p|, t, |t|))
  {}

  /** The scan of `match`, lines 91 to 160: `hit` is false when it gives up.
      On a hit the text is used up and p[..k] is left over; `x & UNQUOTED` of
      the two counters then holds the number of literal tokens behind it. */
  method Scan(p: seq<Byte>, t: seq<Byte>) returns (hit: bool, k: int, matched: nat, sofar: nat, ghost carried: nat)
    requires p != [] && t != [] && |p| < 0x7FFF
    ensures 0 <= k <= |p| && Score(p, k) <= Score(p, |p|)
    ensures Fits(p, |p|, t, |t|) <==> hit && AllRun(p, k)
    ensures hit ==> matched + sofar == 1 + Score(p, |p|) - Score(p, k) + 0x8000 * carried
  {
    hide Sound, Score;
    var m, n := |p| - 1, |t| - 1;
    var lsm, lsn, saved := -1, -1, false;
    matched, sofar := 1, 0;
    ghost var j, from, place, total := |t|, |p|, |t|, Score(p, |p|);
    ghost var goal := Fits(p, |p|, t, |t|);
    ghost var mark: nat, behind: nat, here: nat := 0, 0, 0;
    k, carried := |p|, 0;
    StepInit(p, t);
    while n >= 0
      invariant m == k - 1 && n == j - 1 && 0 <= k <= from <= |p| && 0 <= j <= place <= |t|
      invariant saved ==> lsm == from - 1 && lsn == place - 1 && place > 0
      invariant Sound(p, t, from, place, saved, k, j, goal)
      invariant matched == 1 + behind + 0x8000 * carried
      invariant sofar == here + 0x8000 * mark && mark <= 1
      invariant total == behind + here + Score(p, k) && Score(p, from) == total - behind
      decreases from, place, k
    {
      if k > 0 { ScoreStep(p, k); }
      var quoted := m > 0 && p[m - 1] == BACKSLASH;
      if !quoted && m >= 0 && p[m] == STAR {
        m := SkipRun(p, m);
        StepStar(p, t, from, place, saved, k, j, goal);
        lsm, lsn, saved := m, n, true;
        matched, sofar := matched + sofar, 0;
        carried, mark := carried + mark, 0;
        behind, here := behind + here, 0;
        k := m + 1;
        from, place := k, j;
        continue;
      } else if !quoted && m >= 0 && p[m] == QUESTION {
        StepOne(p, t, from, place, saved, k, j, goal);
        m, n := m - 1, n - 1;
        k, j := k - 1, j - 1;
        continue;
      }
      assert k > 0 ==> !AtStar(p, k);
      MaskedLow(sofar, here, mark);
      mark := if quoted then 1 else 0;
      sofar := Masked(sofar) + (if quoted then 0x8000 else 0);
      if m >= 0 && Fold(p[m]) == Fold(t[n]) {
        StepOne(p, t, from, place, saved, k, j, goal);
        m, n, sofar := m - 1, n - 1, sofar + 1;
        if sofar >= 0x8000 { m := m - 1; }
        k, j, here := Rest(p, k), j - 1, here + 1;
        continue;
      }
      StepFail(p, t, from, place, saved, k, j, goal);
      if saved {
        lsn := lsn - 1;
        n, m := lsn, lsm;
        if n < 0 { saved := false; }
        k := lsm + 1;
        place, j := place - 1, place - 1;
        sofar, mark, here := 0, 0, 0;
        continue;
      }
      return false, 0, 0, 0, 0;
    }
    hit := true;
    StepEnd(p, t, from, place, saved, k, goal);
    carried := carried + mark;
  }

  lemma {:induction false} NoPercentToken(p: seq<Byte>, k: nat)
    requires k <= |p| && PERCENT !in p
    ensures forall i :: 0 <= i < |Tokens(p, k)| ==> !Tokens(p, k)[i].Percent?
  {
    if k > 0 { NoPercentToken(p, Rest(p, k)); }
  }

  lemma {:induction false} StarsAreOptional(ts: seq<Token>, t: seq<Byte>, d: nat)
    requires d <= |ts| && (forall i :: 0 <= i < d ==> ts[i].Star?) && Globs(ts[d..], t)
    ensures Globs(ts, t)
    decreases d
  {
    if d == 0 {
      assert ts[0..] == ts;
    } else {
      assert ts[1..][d - 1..] == ts[d..];
      StarsAreOptional(ts[1..], t, d - 1);
      assert t[0..] == t;
    }
  }

  lemma NoFrontPercents(p: seq<Byte>)
    requires PERCENT !in p
    ensures FrontPercents(p) == 0
  {
    if p != [] { NoFrontPercents(p[1..]); }
  }

  /** Without a `%`, the pattern means exactly what its tokens say. */
  lemma PlainPattern(p: seq<Byte>, t: seq<Byte>)
    requires PERCENT !in p
    ensures Accepts(Tokens(p, |p|), t) <==> Globs(Tokens(p, |p|), t)
    ensures FrontPercents(p) == 0
  {
    var ts := Tokens(p, |p|);
    NoPercentToken(p, |p|);
    NoFrontPercents(p);
    NothingDropped(ts, t);
  }

  // --------------------------------------------- what patterns stand for

  /** Every byte of the text behind a backslash. */
  predicate AllQuoted(p: seq<Byte>) {
    |p| % 2 == 0 && forall i :: 0 <= i < |p| && i % 2 == 0 ==> p[i] == 0x5C
  }

  /** No byte with a meaning of its own but `?`. */
  predicate Simple(p: seq<Byte>) {
    forall i :: 0 <= i < |p| ==> p[i] != 0x5C && p[i] != 0x2A && p[i] != 0x25
  }

  /** One `*`, at place s. */
  predicate OneStar(p: seq<Byte>, s: nat) {
    s < |p| && p[s] == 0x2A && Simple(p[..s]) && Simple(p[s + 1..])
  }

  /** The text t, byte by byte what p says: a `?` stands for any byte. */
  predicate ByteWise(p: seq<Byte>, t: seq<Byte>) {
    |t| == |p| && forall i :: 0 <= i < |p| ==> p[i] == 0x3F || SameLetter(p[i], t[i])
  }

  /** How many `?` there are. */
  function Questions(p: seq<Byte>): nat { multiset(p)[0x3F] }

  lemma {:induction false} TokensOfPrefix(p: seq<Byte>, k: nat)
    requires k <= |p|
    ensures Tokens(p, k) == Tokens(p[..k], k)
    decreases k, |p|
  {
    if k > 0 {
      RunEndOfPrefix(p, k, k - 1);
      var r := Rest(p, k);
      assert Rest(p[..k], k) == r && LastToken(p[..k], k) == LastToken(p, k);
      TokensOfPrefix(p, r);
      if r < k { TokensOfPrefix(p[..k], r); }
      assert p[..k][..r] == p[..r];
    }
  }

  lemma {:induction false} RunEndOfPrefix(p: seq<Byte>, k: nat, j: nat)
    requires j <= k <= |p|
    ensures RunEnd(p[..k], j) == RunEnd(p, j)
  {
    if j > 0 && IsRun(p[j - 1]) && !Quoted(p, j) { RunEndOfPrefix(p, k, j - 1); }
  }

  lemma {:induction false} QuotedTokens(p: seq<Byte>, n: nat)
    requires AllQuoted(p) && 2 * n <= |p|
    ensures |Tokens(p, 2 * n)| == n
    ensures forall i :: 0 <= i < n ==> Tokens(p, 2 * n)[i] == Literal(p[2 * i + 1])
    decreases n
  {
    if n > 0 {
      QuotedTokens(p, n - 1);
      assert p[2 * n - 2] == 0x5C;
    }
  }

  /** The token of a byte on its own. */
  function Single(c: Byte): Token { if c == 0x3F then Any else Literal(c) }

  lemma {:induction false} SimpleTokens(p: seq<Byte>, k: nat)
    requires k <= |p| && Simple(p[..k])
    ensures |Tokens(p, k)| == k && forall i :: 0 <= i < k ==> Tokens(p, k)[i] == Single(p[i])
    decreases k
  {
    if k > 0 {
      assert p[..k][k - 1] == p[k - 1] && (k >= 2 ==> p[..k][k - 2] == p[k - 2]);
      assert p[..k][..k - 1] == p[..k - 1];
      SimpleTokens(p, k - 1);
    }
  }

  lemma {:induction false} StarTokens(p: seq<Byte>, s: nat, k: nat)
    requires OneStar(p, s) && s < k <= |p|
    ensures |Tokens(p, k)| == k && Tokens(p, k)[s] == Star
    ensures forall i :: 0 <= i < k && i != s ==> Tokens(p, k)[i] == Single(p[i])
    decreases k
  {
    forall i | 0 <= i < |p| && i != s ensures p[i] != 0x5C && p[i] != 0x2A && p[i] != 0x25 {
      if i < s { assert p[..s][i] == p[i]; } else { assert p[s + 1..][i - s - 1] == p[i]; }
    }
    if k == s + 1 {
      assert RunEnd(p, s) == s;
      SimpleTokens(p, s);
    } else {
      StarTokens(p, s, k - 1);
    }
  }

  /** Without a star, tokens and bytes go together one by one. */
  lemma {:induction false} GlobsEach(ts: seq<Token>, t: seq<Byte>)
    requires forall i :: 0 <= i < |ts| ==> !ts[i].Star?
    ensures Globs(ts, t) <==> |t| == |ts| && forall i :: 0 <= i < |ts| ==> MatchesOne(ts[i], t[i])
  {
    if ts != [] && t != [] {
      GlobsEach(ts[1..], t[1..]);
      if Globs(ts, t) {
        forall i | 0 <= i < |ts| ensures MatchesOne(ts[i], t[i]) {
          if i > 0 { assert MatchesOne(ts[1..][i - 1], t[1..][i - 1]); }
        }
      }
      if |t| == |ts| && forall i :: 0 <= i < |ts| ==> MatchesOne(ts[i], t[i]) {
        forall i | 0 <= i < |ts| - 1 ensures MatchesOne(ts[1..][i], t[1..][i]) { assert MatchesOne(ts[i + 1], t[i + 1]); }
      }
    }
  }

  lemma GlobsBehind(b: seq<Token>, t: seq<Byte>)
    requires forall i :: 0 <= i < |b| ==> !b[i].Star?
    ensures Globs([Star] + b, t) <==> |t| >= |b| && Globs(b, t[|t| - |b|..])
  {
    hide MatchesOne;
    var ts := [Star] + b;
    assert ts[0] == Star && ts[1..] == b;
    StarFirst(ts, t);
    hide Globs;
    forall i | 0 <= i <= |t| ensures Globs(b, t[i..]) ==> i == |t| - |b| { GlobsEach(b, t[i..]); }
    if |t| >= |b| && Globs(b, t[|t| - |b|..]) { assert Globs(ts[1..], t[|t| - |b|..]); }
  }

  lemma StarFirst(ts: seq<Token>, t: seq<Byte>)
    requires ts != [] && ts[0].Star?
    ensures Globs(ts, t) <==> exists i :: 0 <= i <= |t| && Globs(ts[1..], t[i..])
  {}

  lemma OneFirst(ts: seq<Token>, t: seq<Byte>)
    requires ts != [] && !ts[0].Star?
    ensures Globs(ts, t) <==> t != [] && MatchesOne(ts[0], t[0]) && Globs(ts[1..], t[1..])
  {}

  /** One star takes whatever is between what comes before and after it. */
  lemma {:induction false} GlobsAround(a: seq<Token>, b: seq<Token>, t: seq<Byte>)
    requires (forall i :: 0 <= i < |a| ==> !a[i].Star?) && (forall i :: 0 <= i < |b| ==> !b[i].Star?)
    ensures Globs(a + [Star] + b, t) <==>
              |t| >= |a| + |b| && Globs(a, t[..|a|]) && Globs(b, t[|t| - |b|..])
    decreases |a|
  {
    hide MatchesOne, Globs;
    if a == [] {
      assert a + [Star] + b == [Star] + b && t[..0] == [];
      GlobsBehind(b, t);
      GlobsNothing();
    } else {
      var ts := a + [Star] + b;
      assert ts[0] == a[0] && ts[1..] == a[1..] + [Star] + b;
      OneFirst(ts, t);
      if t != [] {
        GlobsAround(a[1..], b, t[1..]);
        if |t| >= |a| + |b| {
          OneFirst(a, t[..|a|]);
          assert t[..|a|][1..] == t[1..][..|a| - 1] && t[1..][|t| - 1 - |b|..] == t[|t| - |b|..];
        }
      }
    }
  }

  lemma GlobsNothing()
    ensures Globs([], [])
  {}

  lemma SingleMatches(c: Byte, d: Byte)
    ensures !Single(c).Star? && (MatchesOne(Single(c), d) <==> c == 0x3F || SameLetter(c, d))
  {
    FoldIs(c, d);
  }

  /** Counting the literals of a pattern whose byte s, if it has one, is a star. */
  lemma {:induction false} LiteralsEach(ts: seq<Token>, p: seq<Byte>, s: nat)
    requires |ts| == |p| && forall i :: 0 <= i < |ts| ==> ts[i] == if i == s then Star else Single(p[i])
    requires s < |p| ==> p[s] == 0x2A
    ensures Literals(ts) == |p| - Questions(p) - if s < |p| then 1 else 0
  {
    if ts != [] {
      var n := |ts| - 1;
      assert p == p[..n] + [p[n]];
      LiteralsEach(ts[..n], p[..n], s);
    }
  }

  lemma {:induction false} AllLiterals(ts: seq<Token>)
    requires forall i :: 0 <= i < |ts| ==> ts[i].Literal?
    ensures Literals(ts) == |ts|
  {
    if ts != [] { AllLiterals(ts[..|ts| - 1]); }
  }

  /** Where no `%` stands on its own, nothing is dropped. */
  lemma NothingDropped(ts: seq<Token>, t: seq<Byte>)
    requires forall i :: 0 <= i < |ts| ==> !ts[i].Percent?
    ensures Accepts(ts, t) <==> Globs(ts, t)
  {
    if Accepts(ts, t) {
      var d: nat :| DropsTo(ts, t, d);
      forall i | 0 <= i < d ensures ts[i].Star? { assert ts[..d][i] == ts[i]; }
      StarsAreOptional(ts, t, d);
    }
    if Globs(ts, t) {
      assert ts[0..] == ts;
      assert DropsTo(ts, t, 0);
    }
  }

  lemma QuotedPattern(p: seq<Byte>, t: seq<Byte>)
    requires AllQuoted(p) && p != []
    ensures Accepts(Tokens(p, |p|), t) <==> |t| == |p| / 2 && forall i :: 0 <= i < |t| ==> SameLetter(p[2 * i + 1], t[i])
    ensures Literals(Tokens(p, |p|)) == |p| / 2 && FrontPercents(p) == 0
  {
    hide Tokens, Literals, Globs;
    var n := |p| / 2;
    assert 2 * n == |p| && p[0] == 0x5C;
    QuotedTokens(p, n);
    var ts := Tokens(p, |p|);
    NothingDropped(ts, t);
    GlobsEach(ts, t);
    AllLiterals(ts);
    forall i | 0 <= i < n && |t| == n ensures MatchesOne(ts[i], t[i]) <==> SameLetter(p[2 * i + 1], t[i]) {
      FoldIs(p[2 * i + 1], t[i]);
    }
  }

  lemma SimplePattern(p: seq<Byte>, t: seq<Byte>)
    requires Simple(p)
    ensures Accepts(Tokens(p, |p|), t) <==> ByteWise(p, t)
    ensures Literals(Tokens(p, |p|)) == |p| - Questions(p) && FrontPercents(p) == 0
  {
    hide Tokens, Literals, Globs;
    assert p[..|p|] == p;
    SimpleTokens(p, |p|);
    var ts := Tokens(p, |p|);
    NothingDropped(ts, t);
    SinglesMatch(ts, p, t);
    LiteralsEach(ts, p, |p|);
  }

  lemma SinglesMatch(ts: seq<Token>, p: seq<Byte>, t: seq<Byte>)
    requires |ts| == |p| && forall i :: 0 <= i < |ts| ==> ts[i] == Single(p[i])
    ensures Globs(ts, t) <==> ByteWise(p, t)
  {
    hide Globs;
    GlobsEach(ts, t);
    forall i | 0 <= i < |p| && |t| == |p| ensures MatchesOne(ts[i], t[i]) <==> p[i] == 0x3F || SameLetter(p[i], t[i]) {
      SingleMatches(p[i], t[i]);
    }
  }

  /** What comes before and after the one star, and anything between. */
  predicate Around(p: seq<Byte>, s: nat, t: seq<Byte>)
    requires s < |p|
  {
    |t| >= |p| - 1 && ByteWise(p[..s], t[..s]) && ByteWise(p[s + 1..], t[|t| - (|p| - s - 1)..])
  }

  lemma StarPattern(p: seq<Byte>, s: nat, t: seq<Byte>)
    requires OneStar(p, s)
    ensures Accepts(Tokens(p, |p|), t) <==> Around(p, s, t)
    ensures Literals(Tokens(p, |p|)) == |p| - 1 - Questions(p) && FrontPercents(p) == 0
  {
    hide Tokens, Literals, Globs, ByteWise;
    StarTokens(p, s, |p|);
    var ts := Tokens(p, |p|);
    StarGlobs(ts, p, s, t);
    NothingDropped(ts, t);
    LiteralsEach(ts, p, s);
    NoFront(p, s);
  }

  lemma StarGlobs(ts: seq<Token>, p: seq<Byte>, s: nat, t: seq<Byte>)
    requires s < |p| == |ts| && forall i :: 0 <= i < |ts| ==> ts[i] == if i == s then Star else Single(p[i])
    ensures Globs(ts, t) <==> Around(p, s, t)
  {
    hide Globs, ByteWise, Single;
    var a, b := ts[..s], ts[s + 1..];
    assert ts == a + [Star] + b;
    forall i | 0 <= i < |p| ensures !Single(p[i]).Star? { SingleMatches(p[i], 0); }
    GlobsAround(a, b, t);
    if |t| >= |p| - 1 {
      SinglesMatch(a, p[..s], t[..s]);
      SinglesMatch(b, p[s + 1..], t[|t| - (|p| - s - 1)..]);
    }
  }

  lemma NoFront(p: seq<Byte>, s: nat)
    requires OneStar(p, s)
    ensures FrontPercents(p) == 0
  {
    if s > 0 {
      assert p[..s][0] == p[0];
    } else if |p| > 1 {
      assert p[1..][0] == p[1];
    }
  }

  // ----------------------------------------------- patterns of many parts

  /** A part of a pattern as its writer means it. */
  datatype Part =
    | Exactly(c: Byte, quoted: bool)     // that byte, with or without a backslash
    | AnyByte
    | AnyText

  function Spell(x: Part): seq<Byte> {
    match x
    case Exactly(c, quoted) => if quoted then [0x5C, c] else [c]
    case AnyByte => [0x3F]
    case AnyText => [0x2A]
  }

  function Spelled(xs: seq<Part>): seq<Byte> {
    if xs == [] then [] else Spelled(xs[..|xs| - 1]) + Spell(xs[|xs| - 1])
  }

  /** Bytes with a meaning of their own are quoted; and a backslash is not written
      directly before anything that is not, since it would quote that. */
  predicate Clear(xs: seq<Part>) {
    && (forall i :: 0 <= i < |xs| && xs[i].Exactly? && !xs[i].quoted ==>
          xs[i].c != 0x5C && xs[i].c != 0x2A && xs[i].c != 0x25 && xs[i].c != 0x3F)
    && (forall i :: 0 <= i < |xs| - 1 && xs[i].Exactly? && xs[i].c == 0x5C ==> xs[i + 1].Exactly? && xs[i + 1].quoted)
  }

  /** What its writer means a pattern to match, from left to right. */
  ghost predicate Means(xs: seq<Part>, t: seq<Byte>) {
    if xs == [] then t == []
    else match xs[0]
      case Exactly(c, _) => t != [] && SameLetter(c, t[0]) && Means(xs[1..], t[1..])
      case AnyByte => t != [] && Means(xs[1..], t[1..])
      case AnyText => exists i :: 0 <= i <= |t| && Means(xs[1..], t[i..])
  }

  function TokenOf(x: Part): Token {
    match x
    case Exactly(c, _) => Literal(c)
    case AnyByte => Any
    case AnyText => Star
  }

  function TokensOf(xs: seq<Part>): (ts: seq<Token>)
    ensures |ts| == |xs| && forall i :: 0 <= i < |xs| ==> ts[i] == TokenOf(xs[i])
  {
    seq(|xs|, i requires 0 <= i < |xs| => TokenOf(xs[i]))
  }

  lemma {:induction false} MeansIsGlobs(xs: seq<Part>, t: seq<Byte>)
    ensures Means(xs, t) <==> Globs(TokensOf(xs), t)
    decreases |xs|
  {
    if xs != [] {
      assert TokensOf(xs)[1..] == TokensOf(xs[1..]);
      match xs[0]
      case Exactly(c, _) =>
        if t != [] { FoldIs(c, t[0]); MeansIsGlobs(xs[1..], t[1..]); }
      case AnyByte =>
        if t != [] { MeansIsGlobs(xs[1..], t[1..]); }
      case AnyText =>
        forall i | 0 <= i <= |t| ensures Means(xs[1..], t[i..]) <==> Globs(TokensOf(xs[1..]), t[i..]) {
          MeansIsGlobs(xs[1..], t[i..]);
        }
    }
  }

  lemma TwoStars(ts: seq<Token>, t: seq<Byte>)
    ensures Globs(ts + [Star] + [Star], t) <==> Globs(ts + [Star], t)
  {
    GlobsSnocStar(ts + [Star], t);
    GlobsSnocStar(ts, t);
    forall i | 0 <= i <= |t| ensures Globs(ts + [Star], t[..i]) <==> exists j :: 0 <= j <= i && Globs(ts, t[..j]) {
      GlobsSnocStar(ts, t[..i]);
      forall j | 0 <= j <= i ensures t[..i][..j] == t[..j] {}
    }
    assert t[..|t|] == t;
  }

  /** How the last part is spelled, behind the others. */
  lemma SpelledLast(xs: seq<Part>)
    requires xs != []
    ensures var n := |xs| - 1; var q := Spelled(xs[..n]);
            Spelled(xs) == q + Spell(xs[n]) && (xs[n].AnyByte? ==> Spelled(xs)[|q|] == 0x3F) && (xs[n].AnyText? ==> Spelled(xs)[|q|] == 0x2A)
  {}

  /** The last byte before a part that is not quoted is no backslash. */
  lemma NotQuoted(xs: seq<Part>)
    requires Clear(xs) && xs != [] && !(xs[|xs| - 1].Exactly? && xs[|xs| - 1].quoted)
    ensures !Quoted(Spelled(xs), |Spelled(xs)|)
  {
    var n := |xs| - 1;
    SpelledLast(xs);
    if n > 0 {
      SpelledLast(xs[..n]);
      assert xs[..n][n - 1] == xs[n - 1];
    }
  }

  lemma ClearPrefix(xs: seq<Part>)
    requires Clear(xs) && xs != []
    ensures Clear(xs[..|xs| - 1])
  {}

  /** The tokens of a pattern with one part more. */
  lemma LastPart(xs: seq<Part>)
    requires Clear(xs) && xs != []
    ensures var n := |xs| - 1; var p, q := Spelled(xs), Spelled(xs[..n]);
      Tokens(p, |p|) ==
        if n > 0 && xs[n].AnyText? && xs[n - 1].AnyText? then Tokens(q, |q|) else Tokens(q, |q|) + [TokenOf(xs[n])]
  {
    hide Tokens, RunEnd, Clear, Spelled;
    var n := |xs| - 1;
    var p, q := Spelled(xs), Spelled(xs[..n]);
    SpelledLast(xs);
    ClearPrefix(xs);
    assert p[..|q|] == q;
    TokensOfPrefix(p, |q|);
    TokensStep(p, |p|);
    if !(xs[n].Exactly? && xs[n].quoted) { NotQuoted(xs); }
    if xs[n].AnyText? {
      LastStar(xs);
      if n > 0 && xs[n - 1].AnyText? {
        SpelledLast(xs[..n]);
        NotQuoted(xs[..n]);
        TokensStep(q, |q|);
        TokensOfPrefix(p, Rest(q, |q|));
        TokensOfPrefix(q, Rest(q, |q|));
        assert p[..Rest(q, |q|)] == q[..Rest(q, |q|)];
      }
    } else if xs[n].Exactly? && !xs[n].quoted {
      ClearLast(xs);
    }
  }

  lemma ClearLast(xs: seq<Part>)
    requires Clear(xs) && xs != []
    ensures var x := xs[|xs| - 1]; x.Exactly? && !x.quoted ==> x.c != 0x5C && x.c != 0x2A && x.c != 0x25 && x.c != 0x3F
  {}

  lemma TokensStep(p: seq<Byte>, k: nat)
    requires 0 < k <= |p|
    ensures Tokens(p, k) == Tokens(p, Rest(p, k)) + [LastToken(p, k)]
  {}

  /** Where a star at the end leads to: past the stars before it. */
  lemma LastStar(xs: seq<Part>)
    requires Clear(xs) && xs != [] && xs[|xs| - 1].AnyText?
    ensures var n := |xs| - 1; var p, q := Spelled(xs), Spelled(xs[..n]);
      Rest(p, |p|) == if n > 0 && xs[n - 1].AnyText? then Rest(q, |q|) else |q|
  {
    var n := |xs| - 1;
    var p, q := Spelled(xs), Spelled(xs[..n]);
    hide Clear, Spelled;
    SpelledLast(xs);
    NotQuoted(xs);
    if n > 0 {
      ClearPrefix(xs);
      var x := xs[..n][n - 1];
      assert x == xs[n - 1];
      SpelledLast(xs[..n]);
      assert p[..|q|] == q;
      assert forall i :: 0 <= i < |q| ==> p[i] == q[i];
      if !(x.Exactly? && x.quoted) { NotQuoted(xs[..n]); }
      if x.AnyText? {
        RunEndOfPrefix(p, |q|, |q| - 1);
      } else if x.Exactly? && !x.quoted {
        ClearLast(xs[..n]);
      }
    }
  }

  lemma {:induction false} SpelledGlobs(xs: seq<Part>, t: seq<Byte>)
    requires Clear(xs)
    ensures Globs(Tokens(Spelled(xs), |Spelled(xs)|), t) <==> Globs(TokensOf(xs), t)
    decreases |xs|
  {
    hide Globs, Tokens, Clear, Spelled;
    if xs == [] {
      NothingSpelled();
    } else {
      var n := |xs| - 1;
      var q := Spelled(xs[..n]);
      var ts, us := Tokens(q, |q|), TokensOf(xs[..n]);
      ClearPrefix(xs);
      LastPart(xs);
      assert TokensOf(xs) == us + [TokenOf(xs[n])];
      if xs[n].AnyText? {
        forall i | 0 <= i <= |t| ensures Globs(ts, t[..i]) <==> Globs(us, t[..i]) { SpelledGlobs(xs[..n], t[..i]); }
        if n > 0 && xs[n - 1].AnyText? {
          assert us == TokensOf(xs[..n - 1]) + [Star];
          TwoStars(TokensOf(xs[..n - 1]), t);
          assert t[..|t|] == t;
        } else {
          GlobsSnocStar(ts, t);
          GlobsSnocStar(us, t);
        }
      } else {
        GlobsSnocOne(ts, TokenOf(xs[n]), t);
        GlobsSnocOne(us, TokenOf(xs[n]), t);
        if t != [] { SpelledGlobs(xs[..n], t[..|t| - 1]); }
      }
    }
  }

  lemma NothingSpelled()
    ensures Spelled([]) == [] && Tokens([], 0) == [] && TokensOf([]) == []
  {}

  lemma {:induction false} SpelledPercents(xs: seq<Part>, ts: seq<Token>)
    requires Clear(xs) && ts == Tokens(Spelled(xs), |Spelled(xs)|)
    ensures forall i :: 0 <= i < |ts| ==> !ts[i].Percent?
    decreases |xs|
  {
    hide Tokens, Clear, Spelled;
    if xs == [] {
      NothingSpelled();
    } else {
      ClearPrefix(xs);
      LastPart(xs);
      var q := Spelled(xs[..|xs| - 1]);
      SpelledPercents(xs[..|xs| - 1], Tokens(q, |q|));
    }
  }

  /** How many bytes the pattern names. */
  function Named(xs: seq<Part>): nat {
    if xs == [] then 0 else Named(xs[..|xs| - 1]) + (if xs[|xs| - 1].Exactly? then 1 else 0)
  }

  lemma LiteralsMore(ts: seq<Token>, x: Token)
    ensures Literals(ts + [x]) == Literals(ts) + (if x.Literal? || x.Percent? then 1 else 0)
  {
    assert (ts + [x])[..|ts|] == ts;
  }

  lemma {:induction false} SpelledNamed(xs: seq<Part>)
    requires Clear(xs)
    ensures Literals(Tokens(Spelled(xs), |Spelled(xs)|)) == Named(xs)
    decreases |xs|
  {
    hide Tokens, Clear, Spelled, Literals;
    if xs == [] {
      NothingSpelled();
      NoLiterals();
    } else {
      var q := Spelled(xs[..|xs| - 1]);
      ClearPrefix(xs);
      LastPart(xs);
      SpelledNamed(xs[..|xs| - 1]);
      LiteralsMore(Tokens(q, |q|), TokenOf(xs[|xs| - 1]));
    }
  }

  lemma NoLiterals()
    ensures Literals([]) == 0
  {}

  /** Every `%` is quoted. */
  predicate PercentsQuoted(p: seq<Byte>) {
    forall i :: 0 <= i < |p| && p[i] == 0x25 ==> i > 0 && p[i - 1] == 0x5C
  }

  lemma {:induction false} SpelledQuotes(xs: seq<Part>)
    requires Clear(xs)
    ensures PercentsQuoted(Spelled(xs))
    decreases |xs|
  {
    hide Clear, Spelled;
    if xs == [] {
      NothingSpelled();
    } else {
      var q := Spelled(xs[..|xs| - 1]);
      ClearPrefix(xs);
      ClearLast(xs);
      SpelledQuotes(xs[..|xs| - 1]);
      SpelledLast(xs);
    }
  }

  lemma {:induction false} QuotedFront(p: seq<Byte>, j: nat)
    requires PercentsQuoted(p) && j <= |p| && (j > 0 ==> p[j - 1] == 0x2A)
    ensures FrontPercents(p[j..]) == 0
    decreases |p| - j
  {
    if j < |p| && IsRun(p[j]) {
      assert p[j..][0] == p[j] == 0x2A && p[j..][1..] == p[j + 1..];
      QuotedFront(p, j + 1);
    }
  }

  /** Every pattern that is written clearly matches what its writer means, and names the
      bytes that count. */
  lemma Understood(xs: seq<Part>, t: seq<Byte>)
    requires Clear(xs)
    ensures var p := Spelled(xs);
            && (Accepts(Tokens(p, |p|), t) <==> Means(xs, t))
            && Literals(Tokens(p, |p|)) == Named(xs) && FrontPercents(p) == 0
  {
    hide Tokens, Globs, Accepts, Means, Clear, Spelled, Named, Literals, FrontPercents;
    var p := Spelled(xs);
    var ts := Tokens(p, |p|);
    SpelledPercents(xs, ts);
    NothingDropped(ts, t);
    SpelledGlobs(xs, t);
    MeansIsGlobs(xs, t);
    SpelledNamed(xs);
    SpelledQuotes(xs);
    QuotedFront(p, 0);
    assert p[0..] == p;
  }

  /** The pattern p with k percent signs put in front of its one star. */
  function Padded(p: seq<Byte>, s: nat, k: nat): seq<Byte>
    requires s < |p|
  {
    p[..s] + seq(k, _ => 0x25) + p[s..]
  }

  lemma PaddedAt(p: seq<Byte>, s: nat, k: nat)
    requires s < |p| && OneStar(p, s)
    ensures var q := Padded(p, s, k);
      && |q| == |p| + k && q[..s] == p[..s]
      && (forall i :: 0 <= i < s ==> q[i] == p[i] && p[i] != 0x5C && p[i] != 0x2A && p[i] != 0x25)
      && (forall i :: s <= i < s + k ==> q[i] == 0x25) && q[s + k] == p[s] == 0x2A
      && (forall i :: s < i < |p| ==> q[i + k] == p[i] && p[i] != 0x5C && p[i] != 0x2A && p[i] != 0x25)
  {
    forall i | 0 <= i < s ensures p[i] != 0x5C && p[i] != 0x2A && p[i] != 0x25 { assert p[..s][i] == p[i]; }
    forall i | s < i < |p| ensures p[i] != 0x5C && p[i] != 0x2A && p[i] != 0x25 { assert p[s + 1..][i - s - 1] == p[i]; }
  }

  lemma {:induction false} PaddedRunEnd(p: seq<Byte>, s: nat, k: nat, j: nat)
    requires s < |p| && OneStar(p, s) && j <= k
    ensures |Padded(p, s, k)| == |p| + k && RunEnd(Padded(p, s, k), s + j) == s
    decreases j
  {
    hide Padded, OneStar;
    PaddedAt(p, s, k);
    if j > 0 { PaddedRunEnd(p, s, k, j - 1); }
  }

  lemma PaddedStar(p: seq<Byte>, s: nat, k: nat)
    requires s < |p| && OneStar(p, s)
    ensures |Padded(p, s, k)| == |p| + k && Tokens(Padded(p, s, k), s + 1 + k) == Tokens(p, s) + [Star]
  {
    hide Padded, OneStar, Tokens;
    var q := Padded(p, s, k);
    PaddedAt(p, s, k);
    PaddedRunEnd(p, s, k, k);
    TokensStep(q, s + 1 + k);
    TokensOfPrefix(q, s);
    TokensOfPrefix(p, s);
  }

  lemma {:induction false} PaddedTokens(p: seq<Byte>, s: nat, k: nat, j: nat)
    requires s < |p| && OneStar(p, s) && s < j <= |p|
    ensures |Padded(p, s, k)| == |p| + k && Tokens(Padded(p, s, k), j + k) == Tokens(p, j)
    decreases j
  {
    hide Padded, OneStar, Tokens;
    if j == s + 1 {
      PaddedStar(p, s, k);
      PaddedStar(p, s, 0);
      assert Padded(p, s, 0) == p by { PaddedNone(p, s); }
    } else {
      PaddedAt(p, s, k);
      PaddedTokens(p, s, k, j - 1);
      TokensStep(Padded(p, s, k), j + k);
      TokensStep(p, j);
      assert p[j - 2] != 0x5C;
    }
  }

  lemma PaddedNone(p: seq<Byte>, s: nat)
    requires s < |p|
    ensures Padded(p, s, 0) == p
  {}

  /** Percent signs before a star are part of it. */
  lemma PaddedPattern(p: seq<Byte>, s: nat, k: nat, t: seq<Byte>)
    requires OneStar(p, s)
    ensures var q := Padded(p, s, k); Accepts(Tokens(q, |q|), t) <==> Around(p, s, t)
  {
    hide Tokens, Accepts;
    PaddedTokens(p, s, k, |p|);
    StarPattern(p, s, t);
  }

  /** The text matches the pattern byte by byte once d of the `%` at its front are gone. */
  predicate ByteWiseFrom(p: seq<Byte>, d: nat, t: seq<Byte>) {
    d <= |p| && (forall i :: 0 <= i < d ==> p[i] == 0x25) && ByteWise(p[d..], t)
  }

  predicate Starless(p: seq<Byte>) {
    forall i :: 0 <= i < |p| ==> p[i] != 0x5C && p[i] != 0x2A
  }

  function Lone(c: Byte): Token { if c == 0x25 then Percent else Single(c) }

  lemma {:induction false} StarlessTokens(p: seq<Byte>, k: nat)
    requires k <= |p| && Starless(p)
    ensures |Tokens(p, k)| == k && forall i :: 0 <= i < k ==> Tokens(p, k)[i] == Lone(p[i])
    decreases k
  {
    if k > 0 { StarlessTokens(p, k - 1); }
  }

  lemma LonesMatch(ts: seq<Token>, p: seq<Byte>, t: seq<Byte>)
    requires |ts| == |p| && Starless(p) && forall i :: 0 <= i < |ts| ==> ts[i] == Lone(p[i])
    ensures Globs(ts, t) <==> ByteWise(p, t)
  {
    hide Globs;
    GlobsEach(ts, t);
    forall i | 0 <= i < |p| && |t| == |p| ensures MatchesOne(ts[i], t[i]) <==> p[i] == 0x3F || SameLetter(p[i], t[i]) {
      SingleMatches(p[i], t[i]);
    }
  }

  /** Without `*` and backslash, a `%` stands for itself, but those at the very front
      may be missing. */
  lemma StarlessPattern(p: seq<Byte>, t: seq<Byte>)
    requires Starless(p)
    ensures Accepts(Tokens(p, |p|), t) <==> exists d: nat :: ByteWiseFrom(p, d, t)
  {
    hide Tokens, Globs, ByteWise;
    StarlessTokens(p, |p|);
    var ts := Tokens(p, |p|);
    forall d: nat | d <= |p| ensures DropsTo(ts, t, d) <==> ByteWiseFrom(p, d, t) {
      LonesMatch(ts[d..], p[d..], t);
      assert forall i :: 0 <= i < d ==> ts[..d][i] == Lone(p[i]);
    }
    if Accepts(ts, t) {
      var d: nat :| DropsTo(ts, t, d);
      assert ByteWiseFrom(p, d, t);
    }
    if d: nat :| ByteWiseFrom(p, d, t) { assert DropsTo(ts, t, d); }
  }

  /** The families of patterns whose meaning can be said in one line. */
  lemma Families(p: seq<Byte>, t: seq<Byte>)
    ensures p != [] && AllQuoted(p) ==>
      && (Accepts(Tokens(p, |p|), t) <==> |t| == |p| / 2 && forall i :: 0 <= i < |t| ==> SameLetter(p[2 * i + 1], t[i]))
      && Literals(Tokens(p, |p|)) == |p| / 2 && FrontPercents(p) == 0
    ensures Simple(p) ==>
      && (Accepts(Tokens(p, |p|), t) <==> ByteWise(p, t))
      && Literals(Tokens(p, |p|)) == |p| - Questions(p) && FrontPercents(p) == 0
    ensures forall s :: OneStar(p, s) ==>
      && (Accepts(Tokens(p, |p|), t) <==> Around(p, s, t))
      && Literals(Tokens(p, |p|)) == |p| - 1 - Questions(p) && FrontPercents(p) == 0
  {
    hide Accepts, Tokens, Literals, FrontPercents, AllQuoted, Simple, Around, Questions, ByteWise;
    if p != [] && AllQuoted(p) { QuotedPattern(p, t); }
    if Simple(p) { SimplePattern(p, t); }
    forall s | OneStar(p, s)
      ensures Accepts(Tokens(p, |p|), t) <==> Around(p, s, t)
      ensures Literals(Tokens(p, |p|)) == |p| - 1 - Questions(p) && FrontPercents(p) == 0
    {
      StarPattern(p, s, t);
    }
  }

  /** `match`.  A longer pattern could carry the count into the bit with which
      `sofar` remembers a quoted character. */
  method Match(p: seq<Byte>, t: seq<Byte>) returns (r: int)
    requires |p| < 0x7FFF
    ensures r != 0 <==> p != [] && t != [] && Accepts(Tokens(p, |p|), t)
    ensures r != 0 ==> 1 + Literals(Tokens(p, |p|)) - FrontPercents(p) <= r <= 1 + Literals(Tokens(p, |p|))
    ensures PERCENT !in p ==> r == if p != [] && t != [] && Globs(Tokens(p, |p|), t) then 1 + Literals(Tokens(p, |p|)) else 0
    ensures forall xs :: Clear(xs) && p == Spelled(xs) ==> r == if p != [] && t != [] && Means(xs, t) then 1 + Named(xs) else 0
    ensures AllQuoted(p) ==>
              r == if t != [] && |t| == |p| / 2 && forall i :: 0 <= i < |t| ==> SameLetter(p[2 * i + 1], t[i]) then 1 + |p| / 2 else 0
    ensures Simple(p) ==> r == if t != [] && ByteWise(p, t) then 1 + |p| - Questions(p) else 0
    ensures forall s :: OneStar(p, s) ==> r == if t != [] && Around(p, s, t) then |p| - Questions(p) else 0
    ensures forall q, s, k :: OneStar(q, s) && p == Padded(q, s, k) ==> (r != 0 <==> t != [] && Around(q, s, t))
    ensures Starless(p) ==> (r != 0 <==> p != [] && t != [] && exists d: nat :: ByteWiseFrom(p, d, t))
  {
    hide Globs, Accepts, Tokens, Literals, Score, Fits, FrontPercents, AllQuoted, Simple, Around, Questions, Starless, ByteWiseFrom;
    hide Clear, Spelled, Means, Named;
    forall xs | Clear(xs) && p == Spelled(xs)
      ensures Accepts(Tokens(p, |p|), t) <==> Means(xs, t)
      ensures Literals(Tokens(p, |p|)) == Named(xs) && FrontPercents(p) == 0
    {
      Understood(xs, t);
    }
    if PERCENT !in p { PlainPattern(p, t); }
    if Starless(p) { StarlessPattern(p, t); }
    forall q, s, k | OneStar(q, s) && p == Padded(q, s, k) ensures p != [] && (Accepts(Tokens(p, |p|), t) <==> Around(q, s, t)) {
      PaddedPattern(q, s, k, t);
    }
    Families(p, t);
    if p == [] || t == [] { return 0; }
    var hit, k, matched, sofar, carried := Scan(p, t);
    FitsIsAccepts(p, |p|, t, |t|);
    assert t[..|t|] == t;
    ScoreIsLiterals(p, |p|);
    if !hit { return 0; }
    var m := k - 1;
    while m >= 0 && IsRun(p[m])
      invariant -1 <= m < k
      invariant forall i :: m < i < k ==> IsRun(p[i])
    {
      m := m - 1;
    }
    if m >= 0 { return 0; }
    RunLiterals(p, k);
    FrontPercentsMonotone(p, k);
    MaskedLow(matched + sofar, 1 + Score(p, |p|) - Score(p, k), carried);
    r := Masked(matched + sofar);
  }
}
