/** The command symbol table of src/serverio.c: an array of commands kept sorted
    by name, searched by binary search on a prefix with an outward expansion,
    grown by append-and-sort, and shrunk by sorting a sentinel to the end. */
module SymbolTable {
  import opened CString

  datatype Action = Builtin(id: nat) | Expansion(text: Text)

  datatype Command = Command(name: Text, how: Action, help: Text, attrs: nat)

  // --------------------------------------------------------------- the table

  predicate Sorted(t: seq<Command>) {
    match t case _ => forall j, k :: 0 <= j < k < |t| ==> Cmp(t[j].name, t[k].name) < 0
  }

  /** A sorted table as a map from lower-cased names. */
  function Contents(t: seq<Command>): map<Text, Command>
    requires Sorted(t)
  {
    Distinct(t);
    map i | 0 <= i < |t| :: Folded(t[i].name) := t[i]
  }

  lemma Distinct(t: seq<Command>)
    requires Sorted(t)
    ensures forall j, k :: 0 <= j < |t| && 0 <= k < |t| && Folded(t[j].name) == Folded(t[k].name) ==> j == k
  {
    forall j, k | 0 <= j < k < |t| ensures Folded(t[j].name) != Folded(t[k].name) {
      SameIsFolded(t[j].name, t[k].name);
    }
  }

  /** In a sorted table the entries below, at and above a prefix come in this order. */
  lemma Runs(t: seq<Command>, w: Text, i: nat)
    requires Sorted(t) && i < |t|
    ensures NCmp(w, t[i].name, |w|) < 0 ==> forall k :: i <= k < |t| ==> NCmp(w, t[k].name, |w|) < 0
    ensures NCmp(w, t[i].name, |w|) > 0 ==> forall k :: 0 <= k <= i ==> NCmp(w, t[k].name, |w|) > 0
    ensures NCmp(w, t[i].name, |w|) <= 0 ==> forall k :: i <= k < |t| ==> NCmp(w, t[k].name, |w|) <= 0
    ensures NCmp(w, t[i].name, |w|) >= 0 ==> forall k :: 0 <= k <= i ==> NCmp(w, t[k].name, |w|) >= 0
  {
    forall k | i < k < |t| ensures NCmp(w, t[i].name, |w|) >= NCmp(w, t[k].name, |w|) {
      PrefixOrder(w, t[i].name, t[k].name);
    }
    forall k | 0 <= k < i ensures NCmp(w, t[k].name, |w|) >= NCmp(w, t[i].name, |w|) {
      PrefixOrder(w, t[k].name, t[i].name);
    }
  }

  /** Entry x has w as a prefix, as `strncasecmp` sees it; and is w itself. */
  predicate Hit(t: seq<Command>, w: Text, x: int)
    requires 0 <= x < |t|
  {
    NCmp(w, t[x].name, |w|) == 0
  }

  predicate Exact(t: seq<Command>, w: Text, x: int)
    requires 0 <= x < |t|
  {
    Hit(t, w, x) && |t[x].name| == |w|
  }

  lemma HitAndExact(t: seq<Command>, w: Text)
    ensures forall x :: 0 <= x < |t| ==> (Hit(t, w, x) <==> IsPrefix(w, t[x].name))
    ensures forall x :: 0 <= x < |t| ==> (Exact(t, w, x) <==> Same(w, t[x].name))
  {
    forall x | 0 <= x < |t|
      ensures (Hit(t, w, x) <==> IsPrefix(w, t[x].name)) && (Exact(t, w, x) <==> Same(w, t[x].name))
    {
      PrefixIsZero(w, t[x].name);
    }
  }

  lemma OneExact(t: seq<Command>, w: Text, x: int, y: int)
    requires Sorted(t) && 0 <= x < |t| && 0 <= y < |t| && Exact(t, w, x) && Exact(t, w, y)
    ensures x == y
  {
    PrefixIsZero(w, t[x].name);
    PrefixIsZero(w, t[y].name);
    Anti(w, t[x].name);
    Anti(w, t[y].name);
    Trans(t[x].name, w, t[y].name);
    Trans(t[y].name, w, t[x].name);
    Anti(t[x].name, t[y].name);
  }

  /** The hits around a hit: all of lo..hi, and none outside once both ends are reached. */
  ghost predicate Run(t: seq<Command>, w: Text, lo: int, hi: int) {
    match w
    case _ => 0 <= lo < hi <= |t| && forall x :: lo <= x < hi ==> Hit(t, w, x) && !Exact(t, w, x)
  }

  lemma LongerRun(t: seq<Command>, w: Text, lo: int, hi: int)
    requires 0 <= lo < hi <= |t|
    ensures Run(t, w, lo, hi) && hi < |t| && Hit(t, w, hi) && !Exact(t, w, hi) ==> Run(t, w, lo, hi + 1)
    ensures Run(t, w, lo, hi) && lo > 0 && Hit(t, w, lo - 1) && !Exact(t, w, lo - 1) ==> Run(t, w, lo - 1, hi)
    ensures hi == lo + 1 && Hit(t, w, lo) && !Exact(t, w, lo) ==> Run(t, w, lo, hi)
  {
    hide NCmp;
  }

  lemma WholeRun(t: seq<Command>, w: Text, lo: int, hi: int)
    requires Sorted(t) && Run(t, w, lo, hi)
    requires lo > 0 ==> !Hit(t, w, lo - 1)
    requires hi < |t| ==> !Hit(t, w, hi)
    ensures forall x :: 0 <= x < |t| ==> (Hit(t, w, x) <==> lo <= x < hi) && !Exact(t, w, x)
  {
    hide NCmp, Cmp;
    assert Hit(t, w, lo);
    Runs(t, w, lo);
    if lo > 0 { Runs(t, w, lo - 1); }
    if hi < |t| { Runs(t, w, hi); }
  }

  /** The first cnt places of the result name each of lo..hi once. */
  ghost predicate Names(out: array<int>, cnt: int, lo: int, hi: int)
    reads out
  {
    match out
    case _ =>
      && 0 <= cnt == hi - lo && cnt <= out.Length
      && (forall k :: 0 <= k < cnt ==> lo <= out[k] < hi)
      && (forall x :: lo <= x < hi ==> x in out[..cnt])
      && (forall j, k :: 0 <= j < k < cnt ==> out[j] != out[k])
  }

  /** `out[cnt++]=x` for the next entry on either side. */
  method Store(out: array<int>, cnt: nat, x: int, ghost lo: int, ghost hi: int) returns (next: nat)
    requires Names(out, cnt, lo, hi) && cnt < out.Length && (x == hi || x == lo - 1)
    modifies out
    ensures next == cnt + 1 && Names(out, next, if x == hi then lo else x, if x == hi then hi + 1 else hi)
  {
    out[cnt] := x;
    next := cnt + 1;
    assert out[..next] == old(out[..cnt]) + [x];
  }

  // ------------------------------------------------------------- re-sorting

  /** What `qsort` with `cmpcmnd` promises: the same entries in order. */
  ghost predicate InOrder(t: seq<Command>) {
    match t case _ => forall j, k :: 0 <= j < k < |t| ==> Cmp(t[j].name, t[k].name) <= 0
  }

  method QSort(t: seq<Command>) returns (s: seq<Command>)
    ensures InOrder(s) && multiset(s) == multiset(t)
  {
    s := [];
    for i := 0 to |t|
      invariant InOrder(s) && multiset(s) == multiset(t[..i])
    {
      assert t[..i + 1] == t[..i] + [t[i]];
      s := PutInPlace(s, t[i]);
    }
    assert t[..|t|] == t;
  }

  function Inserted(t: seq<Command>, p: nat, c: Command): (s: seq<Command>)
    requires p <= |t|
    ensures |s| == |t| + 1 && s[p] == c
    ensures forall k :: 0 <= k < p ==> s[k] == t[k]
    ensures forall k :: p < k < |s| ==> s[k] == t[k - 1]
    ensures multiset(s) == multiset(t) + multiset{c}
  {
    assert t == t[..p] + t[p..];
    t[..p] + [c] + t[p..]
  }

  method PutInPlace(t: seq<Command>, c: Command) returns (s: seq<Command>)
    requires InOrder(t)
    ensures InOrder(s) && multiset(s) == multiset(t) + multiset{c}
  {
    var p := 0;
    while p < |t| && Cmp(t[p].name, c.name) <= 0
      invariant 0 <= p <= |t| && forall k :: 0 <= k < p ==> Cmp(t[k].name, c.name) <= 0
    {
      p := p + 1;
    }
    s := Inserted(t, p, c);
    forall k | p <= k < |t| ensures Cmp(c.name, t[k].name) <= 0 {
      Anti(t[p].name, c.name);
      Trans(c.name, t[p].name, t[k].name);
    }
    StillInOrder(t, p, c);
  }

  lemma StillInOrder(t: seq<Command>, p: nat, c: Command)
    requires InOrder(t) && p <= |t|
    requires forall k :: 0 <= k < p ==> Cmp(t[k].name, c.name) <= 0
    requires forall k :: p <= k < |t| ==> Cmp(c.name, t[k].name) <= 0
    ensures InOrder(Inserted(t, p, c))
  {
    var s := Inserted(t, p, c);
    hide Inserted, Cmp;
    forall j, k | 0 <= j < k < |s| ensures Cmp(s[j].name, s[k].name) <= 0 {
      if j == p { assert s[k] == t[k - 1]; }
      else if k == p { assert s[j] == t[j]; }
      else { assert s[j] == t[if j < p then j else j - 1] && s[k] == t[if k < p then k else k - 1]; }
    }
  }

  lemma StillSorted(t: seq<Command>, p: nat, c: Command)
    requires Sorted(t) && p <= |t|
    requires forall k :: 0 <= k < p ==> Cmp(t[k].name, c.name) < 0
    requires forall k :: p <= k < |t| ==> Cmp(c.name, t[k].name) < 0
    ensures Sorted(Inserted(t, p, c))
  {
    var s := Inserted(t, p, c);
    hide Inserted, Cmp;
    forall j, k | 0 <= j < k < |s| ensures Cmp(s[j].name, s[k].name) < 0 {
      if j == p { assert s[k] == t[k - 1]; }
      else if k == p { assert s[j] == t[j]; }
      else { assert s[j] == t[if j < p then j else j - 1] && s[k] == t[if k < p then k else k - 1]; }
    }
  }

  /** Names in strict order leave sorting no choice. */
  lemma {:induction false} SortedUnique(s: seq<Command>, t: seq<Command>)
    requires InOrder(s) && Sorted(t) && multiset(s) == multiset(t)
    ensures s == t
  {
    hide Cmp, InOrder, Sorted;
    assert |s| == |multiset(s)| && |t| == |multiset(t)|;
    if t != [] {
      SameFirst(s, t);
      Tail(s);
      Tail(t);
      SortedUnique(s[1..], t[1..]);
    }
  }

  lemma Tail(s: seq<Command>)
    requires s != []
    ensures s == [s[0]] + s[1..] && multiset(s[1..]) == multiset(s) - multiset{s[0]}
    ensures (InOrder(s) ==> InOrder(s[1..])) && (Sorted(s) ==> Sorted(s[1..]))
  {
    assert s == [s[0]] + s[1..];
  }

  lemma SameFirst(s: seq<Command>, t: seq<Command>)
    requires InOrder(s) && Sorted(t) && multiset(s) == multiset(t) && t != [] && s != []
    ensures s[0] == t[0]
  {
    assert s[0] in multiset(t) && t[0] in multiset(s);
    var j :| 0 <= j < |t| && t[j] == s[0];
    var k :| 0 <= k < |s| && s[k] == t[0];
    Anti(s[0].name, t[0].name);
    Anti(s[0].name, s[0].name);
  }

  /** Where a new name belongs. */
  lemma InsertPlace(t: seq<Command>, c: Command) returns (p: nat)
    requires Sorted(t) && forall x :: 0 <= x < |t| ==> !Same(c.name, t[x].name)
    ensures p <= |t| && Sorted(Inserted(t, p, c))
  {
    hide Cmp, Inserted;
    p := 0;
    while p < |t| && Cmp(t[p].name, c.name) < 0
      invariant p <= |t| && forall k :: 0 <= k < p ==> Cmp(t[k].name, c.name) < 0
    {
      p := p + 1;
    }
    forall k | p <= k < |t| ensures Cmp(c.name, t[k].name) < 0 {
      Anti(t[p].name, c.name);
      Trans(c.name, t[p].name, t[k].name);
    }
    StillSorted(t, p, c);
  }

  lemma ContentsAt(t: seq<Command>, i: nat)
    requires Sorted(t) && i < |t|
    ensures Folded(t[i].name) in Contents(t) && Contents(t)[Folded(t[i].name)] == t[i]
  {
    Distinct(t);
  }

  lemma KeyAt(t: seq<Command>, k: Text) returns (i: nat)
    requires Sorted(t) && k in Contents(t)
    ensures i < |t| && Folded(t[i].name) == k && Contents(t)[k] == t[i]
  {
    Distinct(t);
    i :| i < |t| && Folded(t[i].name) == k;
  }

  /** Tables that hold the same entries but for those named n agree as maps but there. */
  lemma ContentsAgree(s: seq<Command>, t: seq<Command>, n: Text)
    requires Sorted(s) && Sorted(t)
    requires forall i :: 0 <= i < |t| && Folded(t[i].name) != n ==> t[i] in s
    requires forall i :: 0 <= i < |s| && Folded(s[i].name) != n ==> s[i] in t
    ensures forall k :: k != n ==> (k in Contents(s) <==> k in Contents(t))
    ensures forall k :: k != n && k in Contents(s) ==> Contents(s)[k] == Contents(t)[k]
  {
    hide Contents, Sorted, Folded;
    forall k | k != n && k in Contents(s) ensures k in Contents(t) && Contents(s)[k] == Contents(t)[k] {
      var i := KeyAt(s, k);
      var j :| 0 <= j < |t| && t[j] == s[i];
      ContentsAt(t, j);
    }
    forall k | k != n && k in Contents(t) ensures k in Contents(s) {
      var i := KeyAt(t, k);
      var j :| 0 <= j < |s| && s[j] == t[i];
      ContentsAt(s, j);
    }
  }

  lemma InsertContents(t: seq<Command>, p: nat, c: Command)
    requires p <= |t| && Sorted(t) && Sorted(Inserted(t, p, c))
    ensures Contents(Inserted(t, p, c)) == Contents(t)[Folded(c.name) := c]
  {
    hide Contents, Sorted, Folded, Inserted;
    var s := Inserted(t, p, c);
    forall i | 0 <= i < |t| ensures t[i] in s { assert t[i] == s[if i < p then i else i + 1]; }
    forall i | 0 <= i < |s| && i != p ensures s[i] in t { assert s[i] == t[if i < p then i else i - 1]; }
    ContentsAgree(s, t, Folded(c.name));
    ContentsAt(s, p);
  }

  lemma OverwriteContents(t: seq<Command>, i: nat, c: Command)
    requires Sorted(t) && i < |t| && Same(c.name, t[i].name)
    ensures Sorted(t[i := c]) && Contents(t[i := c]) == Contents(t)[Folded(c.name) := c]
  {
    hide Contents, Folded, Cmp;
    var s := t[i := c];
    Anti(c.name, t[i].name);
    forall j, k | 0 <= j < k < |s| ensures Cmp(s[j].name, s[k].name) < 0 {
      if j == i { Trans(c.name, t[i].name, t[k].name); }
      if k == i { Trans(t[j].name, t[i].name, c.name); }
    }
    SameIsFolded(c.name, t[i].name);
    forall j | 0 <= j < |t| && j != i ensures t[j] in s && s[j] in t { assert s[j] == t[j]; }
    ContentsAgree(s, t, Folded(c.name));
    ContentsAt(s, i);
  }

  // --------------------------------------------------------------- removal

  const SENTINEL: Text := [0xFE]

  predicate OthersBelow(t: seq<Command>, i: nat) {
    forall k :: 0 <= k < |t| && k != i ==> Cmp(t[k].name, SENTINEL) < 0
  }

  /** Another entry of the sentinel's own name leaves it to `qsort` which comes last. */
  predicate NoTie(t: seq<Command>, i: nat) {
    forall k :: 0 <= k < |t| && k != i ==> !Same(t[k].name, SENTINEL)
  }

  /** s + [c] is what sorting makes of table t with entry i renamed. */
  ghost predicate Renamed(t: seq<Command>, i: nat, s: seq<Command>, c: Command) {
    match t case _ => i < |t| && InOrder(s + [c]) && multiset(s + [c]) == multiset(t[i := t[i].(name := SENTINEL)])
  }

  /** t without entry i. */
  function Without(t: seq<Command>, i: nat): (s: seq<Command>)
    requires i < |t|
    ensures |s| == |t| - 1
    ensures forall k :: 0 <= k < |s| ==> s[k] == t[if k < i then k else k + 1]
    ensures multiset(s) == multiset(t) - multiset{t[i]}
  {
    assert t == t[..i] + [t[i]] + t[i + 1..];
    t[..i] + t[i + 1..]
  }

  lemma NoKey(t: seq<Command>, n: Text)
    requires Sorted(t) && forall k :: 0 <= k < |t| ==> Folded(t[k].name) != n
    ensures n !in Contents(t)
  {}

  lemma WithoutContents(t: seq<Command>, i: nat)
    requires Sorted(t) && i < |t|
    ensures Sorted(Without(t, i)) && Contents(Without(t, i)) == Contents(t) - {Folded(t[i].name)}
  {
    hide Contents, Folded, Without, Cmp;
    var s, n := Without(t, i), Folded(t[i].name);
    forall j, k | 0 <= j < k < |s| ensures Cmp(s[j].name, s[k].name) < 0 {
      assert s[j] == t[if j < i then j else j + 1] && s[k] == t[if k < i then k else k + 1];
    }
    forall k | 0 <= k < |t| && k != i ensures t[k] in s { assert t[k] == s[if k < i then k else k - 1]; }
    forall k | 0 <= k < |s| ensures s[k] in t { assert s[k] == t[if k < i then k else k + 1]; }
    ContentsAgree(s, t, n);
    Distinct(t);
    forall k | 0 <= k < |s| ensures Folded(s[k].name) != n { assert s[k] == t[if k < i then k else k + 1]; }
    NoKey(s, n);
  }

  /** Entry i under the sentinel's name. */
  function Marked(t: seq<Command>, i: nat): Command
    requires i < |t|
  {
    t[i].(name := SENTINEL)
  }

  lemma RenameBag(t: seq<Command>, i: nat, s: seq<Command>, c: Command)
    requires i < |t| && Renamed(t, i, s, c)
    ensures multiset(s) + multiset{c} == multiset(Without(t, i)) + multiset{Marked(t, i)}
    ensures InOrder(s)
  {
    assert multiset(Without(t, i) + [Marked(t, i)]) == multiset(t[i := Marked(t, i)]);
    assert s == (s + [c])[..|s|];
  }

  /** Dropping the renamed entry leaves the others in their order. */
  lemma SentinelLast(t: seq<Command>, i: nat, s: seq<Command>, c: Command)
    requires Sorted(t) && i < |t| && Renamed(t, i, s, c) && c == Marked(t, i)
    ensures s == Without(t, i)
  {
    hide Without, Cmp, Sorted, InOrder, Renamed, Contents;
    RenameBag(t, i, s, c);
    WithoutContents(t, i);
    assert multiset(s) == (multiset(s) + multiset{c}) - multiset{c} == multiset(Without(t, i));
    SortedUnique(s, Without(t, i));
  }

  /** If another entry is dropped, the renamed one stays. */
  lemma SentinelStays(t: seq<Command>, i: nat, s: seq<Command>, c: Command)
    requires i < |t| && Renamed(t, i, s, c) && c != Marked(t, i)
    ensures Marked(t, i) in s
  {
    RenameBag(t, i, s, c);
    assert Marked(t, i) in multiset(s) + multiset{c};
  }

  lemma Once(s: seq<Command>, d: Command)
    requires Sorted(s)
    ensures multiset(s)[d] <= 1
  {
    if d in s {
      var x :| 0 <= x < |s| && s[x] == d;
      SameSelf(d.name);
      Anti(d.name, d.name);
      assert s == s[..x] + [d] + s[x + 1..];
    }
  }

  /** Should an entry like the renamed one be there already, there are two of them now. */
  lemma SentinelTwice(t: seq<Command>, i: nat, s: seq<Command>, c: Command, k: nat)
    requires i < |t| && Renamed(t, i, s, c) && c != Marked(t, i) && k < |t| && k != i && t[k] == Marked(t, i)
    ensures !Sorted(s)
  {
    hide Sorted, Cmp;
    var d, u := Marked(t, i), Without(t, i);
    RenameBag(t, i, s, c);
    assert u[if k < i then k else k - 1] == d;
    assert d in multiset(u);
    assert multiset(s)[d] == (multiset(s) + multiset{c})[d] == (multiset(u) + multiset{d})[d] >= 2;
    if Sorted(s) { Once(s, d); }
  }

  lemma LastIsHighest(s: seq<Command>, c: Command, d: Command)
    requires InOrder(s + [c]) && d in multiset(s + [c])
    ensures d == c || Cmp(d.name, c.name) <= 0
  {
    hide Cmp;
    var y :| 0 <= y < |s + [c]| && (s + [c])[y] == d;
    assert (s + [c])[|s|] == c;
  }

  /** Which entry comes last. */
  lemma WhoIsLast(t: seq<Command>, i: nat, s: seq<Command>, c: Command)
    requires Sorted(t) && i < |t| && Renamed(t, i, s, c)
    ensures OthersBelow(t, i) ==> c == Marked(t, i)
    ensures NoTie(t, i) && !OthersBelow(t, i) ==> c != Marked(t, i)
  {
    hide Cmp, InOrder, Sorted;
    var u := t[i := Marked(t, i)];
    Anti(SENTINEL, c.name);
    if c != u[i] {
      assert u[i] in multiset(u) && c in multiset(s + [c]);
      LastIsHighest(s, c, u[i]);
      var k :| 0 <= k < |t| && u[k] == c;
      assert k != i && t[k] == c;
    }
    if !OthersBelow(t, i) {
      var k :| 0 <= k < |t| && k != i && Cmp(t[k].name, SENTINEL) >= 0;
      assert u[k] in multiset(u);
      LastIsHighest(s, c, t[k]);
    }
  }

  /** Deletion by sentinel is deletion from the map just when the entry that comes
      last is the renamed one; and unless another entry has the sentinel's own name,
      that is just when every other name sorts below the sentinel. */
  lemma RemovalIsExact(t: seq<Command>, i: nat, s: seq<Command>, c: Command)
    requires Sorted(t) && i < |t| && Renamed(t, i, s, c)
    ensures c == Marked(t, i) <==> Sorted(s) && Contents(s) == Contents(t) - {Folded(t[i].name)}
    ensures OthersBelow(t, i) ==> c == Marked(t, i)
    ensures NoTie(t, i) ==> (c == Marked(t, i) <==> OthersBelow(t, i))
  {
    hide Contents, Without, Cmp, Folded, OthersBelow, NoTie, Renamed, InOrder;
    WhoIsLast(t, i, s, c);
    if c == Marked(t, i) {
      SentinelLast(t, i, s, c);
      WithoutContents(t, i);
    } else if Sorted(s) {
      SentinelStays(t, i, s, c);
      NotExact(t, i, s, c);
    }
  }

  lemma NotExact(t: seq<Command>, i: nat, s: seq<Command>, c: Command)
    requires Sorted(t) && i < |t| && Renamed(t, i, s, c) && c != Marked(t, i) && Sorted(s) && Marked(t, i) in s
    ensures Contents(s) != Contents(t) - {Folded(t[i].name)}
  {
    hide Contents, Without, Cmp, Folded, Renamed, Sorted;
    var d, f := Marked(t, i), Folded(SENTINEL);
    var x :| 0 <= x < |s| && s[x] == d;
    ContentsAt(s, x);
    if Contents(s) == Contents(t) - {Folded(t[i].name)} {
      assert f in Contents(t) && Contents(t)[f] == d;
      var y := KeyAt(t, f);
      SentinelTwice(t, i, s, c, y);
    }
  }

  lemma FirstName(out: array<int>, i: int)
    requires out.Length > 0 && out[0] == i
    ensures Names(out, 1, i, i + 1)
  {
    assert out[..1] == [i];
  }

  lemma NamesCount(out: array<int>, cnt: nat, lo: int, hi: int)
    requires Names(out, cnt, lo, hi)
    ensures cnt == hi - lo
  {}

  class Table {
    var itcmnd: seq<Command>

    /** What `CompleteCommand` finds: the exact entry alone, or every entry with
        the prefix, once each. */
    ghost predicate Found(word: Text, out: array<int>, cnt: int)
      reads this, out
    {
      match out
      case _ =>
        && 0 <= cnt <= out.Length && cnt <= |itcmnd|
        && (forall k :: 0 <= k < cnt ==> 0 <= out[k] < |itcmnd|)
        && (forall x :: 0 <= x < |itcmnd| && Exact(itcmnd, word, x) ==> cnt == 1 && out[0] == x)
        && ((forall x :: 0 <= x < |itcmnd| ==> !Exact(itcmnd, word, x)) ==>
              && (forall x :: x in out[..cnt] <==> 0 <= x < |itcmnd| && Hit(itcmnd, word, x))
              && (forall j, k :: 0 <= j < k < cnt ==> out[j] != out[k]))
    }

    method CompleteCommand(word: Text, out: array<int>, max: nat) returns (cnt: nat)
      requires Sorted(itcmnd) && max == |itcmnd| == out.Length
      modifies out
      ensures Found(word, out, cnt)
    {
      hide NCmp, Cmp;
      cnt := 0;
      var l, u := 0, |itcmnd|;
      while l < u
        invariant 0 <= l <= u <= |itcmnd| && cnt == 0
        invariant forall x :: 0 <= x < l ==> !Hit(itcmnd, word, x)
        invariant forall x :: u <= x < |itcmnd| ==> !Hit(itcmnd, word, x)
      {
        var i := (l + u) / 2;
        var r := NCmp(word, itcmnd[i].name, |word|);
        Runs(itcmnd, word, i);
        if r < 0 {
          u := i;
        } else if r > 0 {
          l := i + 1;
        } else {
          cnt := Expand(word, i, out, max);
          return;
        }
      }
    }

    /** One side of the expansion: entry x, next to those found, if it is there
        and has the prefix too. */
    method Look(word: Text, x: int, out: array<int>, cnt0: nat, ghost lo: int, ghost hi: int)
      returns (cnt: nat, more: bool, exact: bool)
      requires Sorted(itcmnd) && |itcmnd| == out.Length
      requires Run(itcmnd, word, lo, hi) && Names(out, cnt0, lo, hi) && 0 <= lo < hi <= |itcmnd| && (x == hi || x == lo - 1)
      modifies out
      ensures exact ==> cnt == 1 && Found(word, out, cnt)
      ensures !exact && more ==> 0 <= x < |itcmnd| && Run(itcmnd, word, if x == hi then lo else x, if x == hi then hi + 1 else hi)
      ensures !exact && more ==> Names(out, cnt, if x == hi then lo else x, if x == hi then hi + 1 else hi)
      ensures !exact && !more ==> Names(out, cnt, lo, hi) && (0 <= x < |itcmnd| ==> !Hit(itcmnd, word, x))
    {
      hide NCmp, Cmp, Run;
      cnt, more, exact := cnt0, true, false;
      if 0 <= x < |itcmnd| && NCmp(word, itcmnd[x].name, |word|) == 0 {
        if |itcmnd[x].name| == |word| {
          out[0], cnt, exact := x, 1, true;
          Alone(word, x, out);
        } else {
          LongerRun(itcmnd, word, lo, hi);
          cnt := Store(out, cnt, x, lo, hi);
        }
      } else {
        more := false;
      }
    }

    /** Entry i has the prefix: take it if exact, else look on both sides. */
    method Expand(word: Text, i: nat, out: array<int>, max: nat) returns (cnt: nat)
      requires Sorted(itcmnd) && max == |itcmnd| == out.Length && i < |itcmnd| && Hit(itcmnd, word, i)
      modifies out
      ensures Found(word, out, cnt)
    {
      hide NCmp, Cmp, Run, Names;
      out[0], cnt := i, 1;
      if |itcmnd[i].name| == |word| {
        Alone(word, i, out);
        return;
      }
      LongerRun(itcmnd, word, i, i + 1);
      FirstName(out, i);
      var plus, minus := true, true;
      ghost var lo, hi := i, i + 1;
      var l := 1;
      var exact;
      while (plus || minus) && cnt <= max
        invariant 0 <= lo <= i < hi <= |itcmnd| && Run(itcmnd, word, lo, hi) && Names(out, cnt, lo, hi)
        invariant if plus then hi == i + l else hi < |itcmnd| ==> !Hit(itcmnd, word, hi)
        invariant if minus then lo == i - l + 1 else lo > 0 ==> !Hit(itcmnd, word, lo - 1)
        decreases (if plus then |itcmnd| - hi + 1 else 0) + if minus then lo + 1 else 0
      {
        if plus {
          cnt, plus, exact := Look(word, i + l, out, cnt, lo, hi);
          if exact { return; }
          if plus { hi := hi + 1; }
        }
        if minus {
          cnt, minus, exact := Look(word, i - l, out, cnt, lo, hi);
          if exact { return; }
          if minus { lo := lo - 1; }
        }
        l := l + 1;
      }
      NamesCount(out, cnt, lo, hi);
      WholeRun(itcmnd, word, lo, hi);
      NamesFound(word, out, cnt, lo, hi);
    }

    /** Said of the letters alone. */
    lemma FoundMeans(word: Text, out: array<int>, cnt: nat)
      requires Sorted(itcmnd) && Found(word, out, cnt)
      ensures cnt <= out.Length && forall k :: 0 <= k < cnt ==> 0 <= out[k] < |itcmnd|
      ensures forall x :: 0 <= x < |itcmnd| && Begins(itcmnd[x].name, word) && |itcmnd[x].name| == |word| ==> out[..cnt] == [x]
      ensures (forall x :: 0 <= x < |itcmnd| ==> !(Begins(itcmnd[x].name, word) && |itcmnd[x].name| == |word|)) ==>
        && (forall x :: x in out[..cnt] <==> 0 <= x < |itcmnd| && Begins(itcmnd[x].name, word))
        && (forall j, k :: 0 <= j < k < cnt ==> out[j] != out[k])
    {
      hide NCmp, Cmp, Begins;
      forall x | 0 <= x < |itcmnd|
        ensures Hit(itcmnd, word, x) <==> Begins(itcmnd[x].name, word)
        ensures Exact(itcmnd, word, x) <==> Begins(itcmnd[x].name, word) && |itcmnd[x].name| == |word|
      {
        NCmpBegins(itcmnd[x].name, word);
      }
      assert cnt == 1 ==> out[..cnt] == [out[0]];
    }

    lemma NamesFound(word: Text, out: array<int>, cnt: nat, lo: int, hi: int)
      requires Names(out, cnt, lo, hi) && 0 <= lo < hi <= |itcmnd|
      requires forall x :: 0 <= x < |itcmnd| ==> (Hit(itcmnd, word, x) <==> lo <= x < hi) && !Exact(itcmnd, word, x)
      ensures Found(word, out, cnt)
    {
      hide NCmp, Exact;
    }

    /** The search inside `UpdateSymbolTable`. */
    method Locate(name: Text) returns (at: int)
      requires Sorted(itcmnd)
      ensures at < |itcmnd|
      ensures at >= 0 ==> Same(name, itcmnd[at].name)
      ensures at < 0 ==> forall x :: 0 <= x < |itcmnd| ==> !Same(name, itcmnd[x].name)
    {
      hide NCmp, Cmp;
      HitAndExact(itcmnd, name);
      at := -1;
      var l, u := 0, |itcmnd|;
      while l < u
        invariant 0 <= l <= u <= |itcmnd|
        invariant forall x :: 0 <= x < l ==> !Hit(itcmnd, name, x)
        invariant forall x :: u <= x < |itcmnd| ==> !Hit(itcmnd, name, x)
      {
        var i := (l + u) / 2;
        var r := NCmp(name, itcmnd[i].name, |name|);
        Runs(itcmnd, name, i);
        if r < 0 {
          u := i;
        } else if r > 0 {
          l := i + 1;
        } else if Same(name, itcmnd[i].name) {
          return i;
        } else {
          at := LocateAround(name, i);
          return;
        }
      }
    }

    method LocateAround(name: Text, i: nat) returns (at: int)
      requires Sorted(itcmnd) && i < |itcmnd| && Hit(itcmnd, name, i) && !Exact(itcmnd, name, i)
      ensures at < |itcmnd| && (at >= 0 ==> Exact(itcmnd, name, at))
      ensures at < 0 ==> forall x :: 0 <= x < |itcmnd| ==> !Exact(itcmnd, name, x)
    {
      hide NCmp, Cmp, Run;
      var plus, minus, l := true, true, 1;
      ghost var lo, hi := i, i + 1;
      LongerRun(itcmnd, name, i, i + 1);
      while plus || minus
        invariant 0 <= lo <= i < hi <= |itcmnd| && Run(itcmnd, name, lo, hi)
        invariant if plus then hi == i + l else hi < |itcmnd| ==> !Hit(itcmnd, name, hi)
        invariant if minus then lo == i - l + 1 else lo > 0 ==> !Hit(itcmnd, name, lo - 1)
        decreases (if plus then |itcmnd| - hi + 1 else 0) + if minus then lo + 1 else 0
      {
        LongerRun(itcmnd, name, lo, hi);
        if plus {
          if i + l < |itcmnd| && NCmp(name, itcmnd[i + l].name, |name|) == 0 {
            if |itcmnd[i + l].name| == |name| { return i + l; }
            hi := hi + 1;
          } else {
            plus := false;
          }
        }
        LongerRun(itcmnd, name, lo, hi);
        if minus {
          if i - l >= 0 && NCmp(name, itcmnd[i - l].name, |name|) == 0 {
            if |itcmnd[i - l].name| == |name| { return i - l; }
            lo := lo - 1;
          } else {
            minus := false;
          }
        }
        l := l + 1;
      }
      WholeRun(itcmnd, name, lo, hi);
      return -1;
    }

    /** `UpdateSymbolTable` is insertion or replacement in the map from names. */
    method UpdateSymbolTable(name: Text, how: Action, hlp: Text, attrs: nat)
      requires Sorted(itcmnd)
      modifies this
      ensures Sorted(itcmnd)
      ensures Contents(itcmnd) == old(Contents(itcmnd))[Folded(name) := Command(name, how, hlp, attrs)]
    {
      hide Cmp, NCmp, Folded, Contents, Sorted, Inserted;
      var c := Command(name, how, hlp, attrs);
      var at := Locate(name);
      if at < 0 {
        ghost var p := InsertPlace(itcmnd, c);
        InsertContents(itcmnd, p, c);
        var s := QSort(itcmnd + [c]);
        SortedUnique(s, Inserted(itcmnd, p, c));
        itcmnd := s;
      } else {
        OverwriteContents(itcmnd, at, c);
        itcmnd := itcmnd[at := c];
      }
    }

    lemma Alone(word: Text, x: int, out: array<int>)
      requires Sorted(itcmnd) && 0 <= x < |itcmnd| && Exact(itcmnd, word, x) && out.Length > 0 && out[0] == x
      ensures Found(word, out, 1)
    {
      hide NCmp, Cmp;
      forall y | 0 <= y < |itcmnd| && Exact(itcmnd, word, y) ensures y == x { OneExact(itcmnd, word, x, y); }
    }

    /** `RemovefromSymbolTablee`.  `gone` is the place of the entry, or -1, and `last`
        the entry that sorting put last. */
    method RemovefromSymbolTablee(name: Text) returns (ghost gone: int, ghost last: Command)
      requires Sorted(itcmnd)
      modifies this
      ensures gone < 0 ==> itcmnd == old(itcmnd) && forall x :: 0 <= x < |itcmnd| ==> !Same(name, itcmnd[x].name)
      ensures gone >= 0 ==>
                && gone < old(|itcmnd|) && Same(name, old(itcmnd)[gone].name)
                && Renamed(old(itcmnd), gone, itcmnd, last)
      ensures gone >= 0 ==>
                (last == Marked(old(itcmnd), gone) <==> Sorted(itcmnd) && Contents(itcmnd) == old(Contents(itcmnd)) - {Folded(name)})
      ensures gone >= 0 && OthersBelow(old(itcmnd), gone) ==> last == Marked(old(itcmnd), gone)
      ensures gone >= 0 && NoTie(old(itcmnd), gone) && last == Marked(old(itcmnd), gone) ==> OthersBelow(old(itcmnd), gone)
    {
      hide Cmp, NCmp, Folded, Contents, Sorted, Without, Renamed, OthersBelow, NoTie, Found, Marked;
      ghost var t := itcmnd;
      var matches := new int[|itcmnd|];
      var cnt := CompleteCommand(name, matches, |itcmnd|);
      HitAndExact(itcmnd, name);
      var ptr := PickSame(name, matches, cnt);
      gone := ptr;
      if ptr < 0 {
        last := Command([], Builtin(0), [], 0);
        return;
      }
      var s := QSort(itcmnd[ptr := itcmnd[ptr].(name := SENTINEL)]);
      itcmnd := s[..|s| - 1];
      LastOff(t, ptr, s);
      last := s[|s| - 1];
      SameIsFolded(name, t[ptr].name);
      RemovalIsExact(t, ptr, itcmnd, last);
    }

    /** The matches are searched for the name itself. */
    method PickSame(name: Text, matches: array<int>, cnt: nat) returns (ptr: int)
      requires Sorted(itcmnd) && Found(name, matches, cnt)
      ensures ptr < |itcmnd|
      ensures ptr >= 0 ==> Same(name, itcmnd[ptr].name)
      ensures ptr < 0 ==> forall x :: 0 <= x < |itcmnd| ==> !Same(name, itcmnd[x].name)
    {
      hide Cmp, NCmp;
      HitAndExact(itcmnd, name);
      ptr := -1;
      for i := 0 to cnt
        invariant forall k :: 0 <= k < i ==> !Same(name, itcmnd[matches[k]].name)
      {
        if Same(name, itcmnd[matches[i]].name) { return matches[i]; }
      }
    }
  }

  lemma LastOff(t: seq<Command>, i: nat, s: seq<Command>)
    requires i < |t| && InOrder(s) && multiset(s) == multiset(t[i := t[i].(name := SENTINEL)])
    ensures |s| == |t| && Renamed(t, i, s[..|s| - 1], s[|s| - 1])
  {
    assert |multiset(s)| == |t|;
    assert s[..|s| - 1] + [s[|s| - 1]] == s;
  }
}
