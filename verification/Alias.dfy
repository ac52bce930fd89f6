/** The aliases of src/alias.c, kept in a list and mirrored in the command table. */
module Alias {
  import opened CString
  import opened List
  import opened SymbolTable

  datatype Alias = Alias(name: Text, what: Text, help: Text)

  /** The entry of the command table that stands for an alias. */
  function Entry(a: Alias): Command {
    Command(a.name, Expansion(a.what), a.help, 2)
  }

  predicate NoTwins(al: seq<Alias>) {
    match al case _ => forall i, j :: 0 <= i < j < |al| ==> Folded(al[i].name) != Folded(al[j].name)
  }

  function AliasMap(al: seq<Alias>): map<Text, Command>
    requires NoTwins(al)
  {
    map i | 0 <= i < |al| :: Folded(al[i].name) := Entry(al[i])
  }

  /** The alias entries of a command table. */
  function AliasEntries(m: map<Text, Command>): map<Text, Command> {
    map n | n in m && m[n].attrs == 2 :: m[n]
  }

  /** The table's alias entries are the aliases, with their current expansions. */
  ghost predicate InStep(al: seq<Alias>, t: seq<Command>) {
    match al case _ => Sorted(t) && NoTwins(al) && AliasEntries(Contents(t)) == AliasMap(al)
  }

  /** The place of the alias called name, or |al|. */
  function Place(al: seq<Alias>, name: Text): (i: nat)
    ensures i <= |al| && (i < |al| ==> Same(name, al[i].name))
    ensures forall j :: 0 <= j < i ==> !Same(name, al[j].name)
    decreases |al|
  {
    if al == [] then 0 else if Same(name, al[0].name) then 0 else 1 + Place(al[1..], name)
  }

  /** The list once name stands for the new expansion. */
  function Defined(al: seq<Alias>, name: Text, what: Text, help: Text): seq<Alias> {
    var i := Place(al, name);
    if i < |al| then al[i := Alias(al[i].name, what, help)] else al + [Alias(name, what, help)]
  }

  lemma MapAt(al: seq<Alias>, i: nat)
    requires NoTwins(al) && i < |al|
    ensures Folded(al[i].name) in AliasMap(al) && AliasMap(al)[Folded(al[i].name)] == Entry(al[i])
  {}

  lemma MapKey(al: seq<Alias>, n: Text) returns (i: nat)
    requires NoTwins(al) && n in AliasMap(al)
    ensures i < |al| && Folded(al[i].name) == n
  {
    i :| i < |al| && Folded(al[i].name) == n;
  }

  lemma MapsAgree(a: seq<Alias>, b: seq<Alias>, n: Text)
    requires NoTwins(a) && NoTwins(b)
    requires forall i :: 0 <= i < |b| && Folded(b[i].name) != n ==> b[i] in a
    requires forall i :: 0 <= i < |a| && Folded(a[i].name) != n ==> a[i] in b
    ensures forall k :: k != n ==> (k in AliasMap(a) <==> k in AliasMap(b))
    ensures forall k :: k != n && k in AliasMap(a) ==> AliasMap(a)[k] == AliasMap(b)[k]
  {
    hide AliasMap, NoTwins, Folded;
    forall k | k != n && k in AliasMap(a) ensures k in AliasMap(b) && AliasMap(a)[k] == AliasMap(b)[k] {
      var i := MapKey(a, k);
      var j :| 0 <= j < |b| && b[j] == a[i];
      MapAt(a, i);
      MapAt(b, j);
    }
    forall k | k != n && k in AliasMap(b) ensures k in AliasMap(a) {
      var i := MapKey(b, k);
      var j :| 0 <= j < |a| && a[j] == b[i];
      MapAt(a, j);
    }
  }

  lemma DefinedMap(al: seq<Alias>, name: Text, what: Text, help: Text)
    requires NoTwins(al)
    ensures NoTwins(Defined(al, name, what, help))
    ensures var d := Defined(al, name, what, help);
            var c := Entry(d[Place(al, name)]);
            Same(name, c.name) && AliasMap(d) == AliasMap(al)[Folded(name) := c]
  {
    hide AliasMap, Folded, Cmp;
    var d, i := Defined(al, name, what, help), Place(al, name);
    SameSelf(name);
    forall j | 0 <= j < |al| ensures Same(name, al[j].name) <==> Folded(name) == Folded(al[j].name) {
      SameIsFolded(name, al[j].name);
    }
    SameIsFolded(name, d[i].name);
    forall j | 0 <= j < |al| && j != i ensures al[j] in d && d[j] in al { assert d[j] == al[j]; }
    MapsAgree(d, al, Folded(name));
    MapAt(d, i);
  }

  lemma DroppedMap(al: seq<Alias>, i: nat)
    requires NoTwins(al) && i < |al|
    ensures NoTwins(Dropped(al, i))
    ensures AliasMap(Dropped(al, i)) == AliasMap(al) - {Folded(al[i].name)}
  {
    hide AliasMap, Folded, Dropped;
    var d := Dropped(al, i);
    forall j | 0 <= j < |al| && j != i ensures al[j] in d { assert al[j] == d[if j < i then j else j - 1]; }
    forall j | 0 <= j < |d| ensures d[j] in al && Folded(d[j].name) != Folded(al[i].name) {
      assert d[j] == al[if j < i then j else j + 1];
    }
    MapsAgree(d, al, Folded(al[i].name));
    forall k | k in AliasMap(d) ensures k != Folded(al[i].name) { var j := MapKey(d, k); }
  }

  /** A table entry set to what an alias has become. */
  lemma StepDefine(al: seq<Alias>, name: Text, what: Text, help: Text, t: seq<Command>, u: seq<Command>)
    requires InStep(al, t) && Sorted(u)
    requires Place(al, name) < |Defined(al, name, what, help)|
    requires var c := Entry(Defined(al, name, what, help)[Place(al, name)]);
             Contents(u) == Contents(t)[Folded(c.name) := c]
    ensures InStep(Defined(al, name, what, help), u)
  {
    hide AliasMap, Folded, Cmp, Defined, Contents, Sorted, NoTwins;
    var c := Entry(Defined(al, name, what, help)[Place(al, name)]);
    DefinedMap(al, name, what, help);
    SameIsFolded(name, c.name);
    assert AliasEntries(Contents(u)) == AliasEntries(Contents(t))[Folded(c.name) := c];
  }

  lemma StepRemove(al: seq<Alias>, i: nat, t: seq<Command>, u: seq<Command>)
    requires InStep(al, t) && i < |al| && Sorted(u) && Contents(u) == Contents(t) - {Folded(al[i].name)}
    ensures InStep(Dropped(al, i), u)
  {
    hide AliasMap, Folded, Cmp, Contents, Sorted, NoTwins, Dropped;
    DroppedMap(al, i);
    assert AliasEntries(Contents(u)) == AliasEntries(Contents(t)) - {Folded(al[i].name)};
  }

  /** An alias has an entry of its own, so deletion finds it. */
  lemma HasEntry(al: seq<Alias>, i: nat, t: seq<Command>) returns (x: nat)
    requires InStep(al, t) && i < |al|
    ensures x < |t| && Same(al[i].name, t[x].name) && t[x] == Entry(al[i])
    ensures Sorted(t) && forall y :: 0 <= y < |t| && Same(al[i].name, t[y].name) ==> y == x
  {
    hide AliasMap, Folded, Cmp, Contents, NoTwins;
    MapAt(al, i);
    x := KeyAt(t, Folded(al[i].name));
    SameIsFolded(al[i].name, t[x].name);
    Distinct(t);
    forall y | 0 <= y < |t| && Same(al[i].name, t[y].name) ensures y == x { SameIsFolded(al[i].name, t[y].name); }
  }

  /** An entry left behind under the sentinel's name is an alias that is not on
      the list. */
  lemma StepNotRemoved(al: seq<Alias>, i: nat, t: seq<Command>, x: nat, u: seq<Command>, c: Command)
    requires InStep(al, t) && i < |al| && x < |t| && t[x] == Entry(al[i])
    requires Renamed(t, x, u, c) && c != Marked(t, x)
    ensures !InStep(Dropped(al, i), u)
  {
    hide AliasMap, Folded, Cmp, Contents, NoTwins, Dropped, Sorted, Renamed;
    var d, f := Marked(t, x), Folded(SENTINEL);
    if InStep(Dropped(al, i), u) {
      SentinelStays(t, x, u, c);
      var y :| 0 <= y < |u| && u[y] == d;
      ContentsAt(u, y);
      assert f in AliasEntries(Contents(u)) && AliasEntries(Contents(u))[f] == d;
      var z := ListedTwice(al, i, t, x);
      SentinelTwice(t, x, u, c, z);
    }
  }

  /** Were the renamed entry on the list, the table would have had one like it. */
  lemma ListedTwice(al: seq<Alias>, i: nat, t: seq<Command>, x: nat) returns (z: nat)
    requires InStep(al, t) && i < |al| && x < |t| && t[x] == Entry(al[i])
    requires NoTwins(Dropped(al, i)) && Folded(SENTINEL) in AliasMap(Dropped(al, i))
    requires AliasMap(Dropped(al, i))[Folded(SENTINEL)] == Marked(t, x)
    ensures z < |t| && z != x && t[z] == Marked(t, x)
  {
    hide AliasMap, Folded, Cmp, Contents, Dropped, Sorted;
    var dr := Dropped(al, i);
    var j := MapKey(dr, Folded(SENTINEL));
    MapAt(dr, j);
    var k := if j < i then j else j + 1;
    assert al[k] == dr[j] && Folded(al[k].name) != Folded(al[i].name);
    MapAt(al, k);
    z := KeyAt(t, Folded(al[k].name));
  }

  /** Built-in commands and aliases whose names sort below the sentinel. */
  predicate AllBelow(t: seq<Command>) {
    match t case _ => forall k :: 0 <= k < |t| ==> Cmp(t[k].name, SENTINEL) < 0
  }

  lemma BelowDefined(t: seq<Command>, c: Command, u: seq<Command>)
    requires Sorted(t) && Sorted(u) && AllBelow(t) && Cmp(c.name, SENTINEL) < 0
    requires Contents(u) == Contents(t)[Folded(c.name) := c]
    ensures AllBelow(u)
  {
    hide Contents, Folded, Cmp, Sorted;
    forall y | 0 <= y < |u| ensures Cmp(u[y].name, SENTINEL) < 0 {
      ContentsAt(u, y);
      if Folded(u[y].name) != Folded(c.name) {
        var z := KeyAt(t, Folded(u[y].name));
      }
    }
  }

  lemma BelowWithout(t: seq<Command>, x: nat)
    requires AllBelow(t) && x < |t|
    ensures OthersBelow(t, x) && AllBelow(Without(t, x))
  {
    hide Cmp, Without;
  }

  /** The name under which an alias stands, old or new, sorts like the one given. */
  lemma BelowSame(a: Text, b: Text)
    requires Same(a, b) && Cmp(a, SENTINEL) < 0
    ensures Cmp(b, SENTINEL) < 0
  {
    hide Cmp;
    Anti(a, b);
    Trans(b, a, SENTINEL);
  }

  // ------------------------------------------------------------- whole runs

  datatype Op = Add(name: Text, what: Text, help: Text) | Remove(name: Text)

  /** A name that is added sorts below the sentinel. */
  predicate Plain(op: Op) {
    op.Add? ==> Cmp(op.name, SENTINEL) < 0
  }

  function Effect(al: seq<Alias>, op: Op): seq<Alias> {
    match op
    case Add(name, what, help) => Defined(al, name, what, help)
    case Remove(name) => if Place(al, name) < |al| then Dropped(al, Place(al, name)) else al
  }

  function EffectAll(al: seq<Alias>, ops: seq<Op>): seq<Alias>
    decreases |ops|
  {
    if ops == [] then al else EffectAll(Effect(al, ops[0]), ops[1..])
  }

  lemma {:induction false} EffectAllMore(al: seq<Alias>, ops: seq<Op>, op: Op)
    ensures EffectAll(al, ops + [op]) == Effect(EffectAll(al, ops), op)
    decreases |ops|
  {
    hide Effect;
    if ops == [] {
      assert [] + [op] == [op] && [op][1..] == [];
    } else {
      EffectAllMore(Effect(al, ops[0]), ops[1..], op);
      assert (ops + [op])[1..] == ops[1..] + [op];
    }
  }

  /** Place k is the first of an alias of that name. */
  predicate FirstOf(al: seq<Alias>, name: Text, k: nat) {
    k < |al| && Same(name, al[k].name) && forall j :: 0 <= j < k ==> !Same(name, al[j].name)
  }

  predicate Absent(al: seq<Alias>, name: Text) {
    match al case _ => forall i :: 0 <= i < |al| ==> !Same(name, al[i].name)
  }

  lemma PlaceIs(al: seq<Alias>, name: Text)
    ensures Place(al, name) == |al| <==> Absent(al, name)
    ensures forall k: nat :: FirstOf(al, name, k) <==> k == Place(al, name) < |al|
  {
    hide Same, Place;
  }

  /** What each of them is for: a name that is there keeps its place and its spelling and
      gets the new expansion, another one comes last; one that is removed is not there any
      more, and the others are, in order. */
  ghost predicate Happened(was: seq<Alias>, op: Op, now: seq<Alias>) {
    match op
    case Add(name, what, help) =>
      && (Absent(was, name) ==> now == was + [Alias(name, what, help)])
      && forall k: nat :: FirstOf(was, name, k) ==> now == was[k := Alias(was[k].name, what, help)]
    case Remove(name) =>
      && Absent(now, name) && (Absent(was, name) ==> now == was)
      && forall k: nat :: FirstOf(was, name, k) ==> now == was[..k] + was[k + 1..]
  }

  lemma EffectMeans(al: seq<Alias>, op: Op)
    requires NoTwins(al)
    ensures Happened(al, op, Effect(al, op))
  {
    hide Same, Place, Folded, FirstOf;
    match op
    case Add(name, _, _) =>
      PlaceIs(al, name);
    case Remove(name) =>
      PlaceIs(al, name);
      var k := Place(al, name);
      forall i | 0 <= i < |al| && i != k ensures !Same(name, al[i].name) {
        if Same(name, al[i].name) {
          SameIsFolded(name, al[i].name);
          SameIsFolded(name, al[k].name);
        }
      }
  }

  /** The alias can be used: the table has an entry of that name with the expansion. */
  predicate Usable(t: seq<Command>, name: Text, what: Text, help: Text) {
    match t
    case _ =>
      exists y :: 0 <= y < |t| && Same(name, t[y].name) &&
        t[y].how == Expansion(what) && t[y].help == help && t[y].attrs == 2
  }

  lemma DefinedUsable(al: seq<Alias>, name: Text, what: Text, help: Text, t: seq<Command>)
    requires InStep(Defined(al, name, what, help), t)
    ensures Usable(t, name, what, help)
  {
    hide Cmp, InStep;
    var k := Place(al, name);
    SameSelf(name);
    var y := HasEntry(Defined(al, name, what, help), k, t);
    SameTrans(name, Defined(al, name, what, help)[k].name, t[y].name);
  }

  lemma SameTrans(a: Text, b: Text, c: Text)
    requires Same(a, b) && Same(b, c)
    ensures Same(a, c)
  {
    SameIsFolded(a, b);
    SameIsFolded(b, c);
    SameIsFolded(a, c);
  }

  lemma InStepApart(al: seq<Alias>, t: seq<Command>)
    requires InStep(al, t)
    ensures NoTwins(al)
  {
    hide NoTwins;
  }

  // ------------------------------------------------ a removal that goes wrong

  const LETTER: Text := [0x61]
  const HIGHEST: Text := [0xFF]

  /** Two aliases, `a` and one named by the byte 0xFF alone, which `/alias` takes as it
      looks at the length of a name only.  Removing `a` deletes the other one's entry
      and leaves that of `a` under the name of the sentinel. */
  lemma OutOfStep(what: Text)
    ensures var al := [Alias(LETTER, what, []), Alias(HIGHEST, what, [])];
            var t := [Entry(al[0]), Entry(al[1])];
            var s := [Marked(t, 0)];
            && InStep(al, t) && NoTie(t, 0) && !OthersBelow(t, 0)
            && Renamed(t, 0, s, t[1]) && !InStep(Dropped(al, 0), s)
  {
    var al := [Alias(LETTER, what, []), Alias(HIGHEST, what, [])];
    var t := [Entry(al[0]), Entry(al[1])];
    var s := [Marked(t, 0)];
    assert Cmp(LETTER, HIGHEST) < 0 && Cmp(HIGHEST, SENTINEL) > 0 && Cmp(SENTINEL, HIGHEST) < 0;
    AliasesAlone(al, t);
    assert t[0 := Marked(t, 0)] == s + [t[1]];
    StepNotRemoved(al, 0, t, 0, s, t[1]);
  }

  lemma NoTwinsAlone(al: seq<Alias>, t: seq<Command>)
    requires |t| == |al| && Sorted(t) && forall i :: 0 <= i < |t| ==> t[i] == Entry(al[i])
    ensures NoTwins(al)
  {
    hide Cmp, Folded, Sorted;
    Distinct(t);
    forall i, j | 0 <= i < j < |al| ensures Folded(al[i].name) != Folded(al[j].name) {
      assert t[i].name == al[i].name && t[j].name == al[j].name;
    }
  }

  /** A table of aliases alone is in step with their list. */
  lemma AliasesAlone(al: seq<Alias>, t: seq<Command>)
    requires |t| == |al| && Sorted(t) && forall i :: 0 <= i < |t| ==> t[i] == Entry(al[i])
    ensures InStep(al, t)
  {
    hide Cmp, Folded, Sorted, Contents, AliasMap, NoTwins;
    NoTwinsAlone(al, t);
    forall k | k in Contents(t)
      ensures k in AliasMap(al) && AliasMap(al)[k] == Contents(t)[k] && Contents(t)[k].attrs == 2
    {
      var i := KeyAt(t, k);
      MapAt(al, i);
    }
    forall k | k in AliasMap(al) ensures k in Contents(t) {
      var i := MapKey(al, k);
      ContentsAt(t, i);
    }
  }

  // ----------------------------------------------------------- the program

  /** The search loop of both operations. */
  method Find(lptr: List<Alias>, name: Text) returns (eptr: ListEntry?<Alias>, ghost k: nat)
    requires lptr.Valid()
    ensures k == Place(lptr.Contents(), name)
    ensures eptr == if k < |lptr.Nodes| then lptr.Nodes[k] else null
  {
    eptr, k := lptr.head, 0;
    while eptr != null && !Same(name, eptr.whatever.name)
      invariant 0 <= k <= |lptr.Nodes| && eptr == if k < |lptr.Nodes| then lptr.Nodes[k] else null
      invariant forall j :: 0 <= j < k ==> !Same(name, lptr.Nodes[j].whatever.name)
      decreases |lptr.Nodes| - k
    {
      eptr, k := eptr.next, k + 1;
    }
  }

  /** The half of `AddAlias` that changes the list. */
  method Define(lptr: List<Alias>, name: Text, expand: Text, hlp: Text) returns (a: Alias)
    requires lptr.Valid()
    modifies lptr, lptr.Nodes
    ensures lptr.Valid() && lptr.Contents() == Defined(old(lptr.Contents()), name, expand, hlp)
    ensures forall i :: 0 <= i < |lptr.Nodes| ==> lptr.Nodes[i] in old(lptr.Nodes) || fresh(lptr.Nodes[i])
    ensures Place(old(lptr.Contents()), name) < |lptr.Contents()| && a == lptr.Contents()[Place(old(lptr.Contents()), name)]
  {
    hide Cmp;
    var eptr;
    ghost var al, k := lptr.Contents(), 0;
    eptr, k := Find(lptr, name);
    if eptr != null {
      eptr.whatever := Alias(eptr.whatever.name, expand, hlp);
      assert lptr.Contents() == al[k := eptr.whatever];
    } else {
      eptr := lptr.AddtoList(Alias(name, expand, hlp));
    }
    a := eptr.whatever;
  }

  lemma StillBelow(al: seq<Alias>, name: Text, what: Text, help: Text, t: seq<Command>, u: seq<Command>)
    requires Sorted(t) && Sorted(u) && Place(al, name) < |Defined(al, name, what, help)|
    requires var c := Entry(Defined(al, name, what, help)[Place(al, name)]);
             Contents(u) == Contents(t)[Folded(c.name) := c]
    ensures AllBelow(t) && Cmp(name, SENTINEL) < 0 ==> AllBelow(u)
  {
    hide Contents, Folded, Cmp, Sorted, AllBelow;
    var c := Entry(Defined(al, name, what, help)[Place(al, name)]);
    if AllBelow(t) && Cmp(name, SENTINEL) < 0 {
      SameSelf(name);
      assert Same(name, c.name);
      BelowSame(name, c.name);
      BelowDefined(t, c, u);
    }
  }

  /** `AddAlias`: a new expansion takes effect in the list and in the table. */
  method AddAlias(lptr: List<Alias>, tbl: Table, name: Text, expand: Text, hlp: Text) returns (r: int)
    requires lptr.Valid() && InStep(lptr.Contents(), tbl.itcmnd)
    modifies lptr, lptr.Nodes, tbl
    ensures lptr.Valid() && r == 1
    ensures lptr.Contents() == Defined(old(lptr.Contents()), name, expand, hlp)
    ensures Happened(old(lptr.Contents()), Add(name, expand, hlp), lptr.Contents())
    ensures InStep(lptr.Contents(), tbl.itcmnd) && Usable(tbl.itcmnd, name, expand, hlp)
    ensures AllBelow(old(tbl.itcmnd)) && Cmp(name, SENTINEL) < 0 ==> AllBelow(tbl.itcmnd)
    ensures forall i :: 0 <= i < |lptr.Nodes| ==> lptr.Nodes[i] in old(lptr.Nodes) || fresh(lptr.Nodes[i])
  {
    hide InStep, Folded, Cmp, Contents, Sorted, Defined, Place, Happened, Usable;
    ghost var al, t := lptr.Contents(), tbl.itcmnd;
    InStepIsSorted(al, t);
    InStepApart(al, t);
    EffectMeans(al, Add(name, expand, hlp));
    var a := Define(lptr, name, expand, hlp);
    tbl.UpdateSymbolTable(a.name, Expansion(a.what), a.help, 2);
    StepDefine(al, name, expand, hlp, t, tbl.itcmnd);
    StillBelow(al, name, expand, hlp, t, tbl.itcmnd);
    DefinedUsable(al, name, expand, hlp, tbl.itcmnd);
    r := 1;
  }

  /** Take the k-th entry off the list. */
  method TakeOff(lptr: List<Alias>, eptr: ListEntry<Alias>, ghost k: nat)
    requires lptr.Valid() && k < |lptr.Nodes| && lptr.Nodes[k] == eptr
    modifies lptr, lptr.Nodes
    ensures lptr.Valid() && lptr.Contents() == Dropped(old(lptr.Contents()), k)
    ensures forall i :: 0 <= i < |lptr.Nodes| ==> lptr.Nodes[i] in old(lptr.Nodes)
  {
    hide Dropped;
    var found;
    ghost var j;
    found, j := lptr.RemovefromList(eptr);
    assert j == k;
  }

  /** The k-th alias leaves the table and the list. */
  method RemoveBoth(lptr: List<Alias>, tbl: Table, eptr: ListEntry<Alias>, name: Text, ghost k: nat) returns (ghost x: nat)
    requires lptr.Valid() && InStep(lptr.Contents(), tbl.itcmnd)
    requires k < |lptr.Nodes| && lptr.Nodes[k] == eptr && Same(name, lptr.Contents()[k].name)
    modifies lptr, lptr.Nodes, tbl
    ensures lptr.Valid() && lptr.Contents() == Dropped(old(lptr.Contents()), k)
    ensures x < |old(tbl.itcmnd)| && Same(name, old(tbl.itcmnd)[x].name)
    ensures InStep(lptr.Contents(), tbl.itcmnd) <==> tbl.itcmnd == Without(old(tbl.itcmnd), x)
    ensures OthersBelow(old(tbl.itcmnd), x) ==> InStep(lptr.Contents(), tbl.itcmnd)
    ensures NoTie(old(tbl.itcmnd), x) && InStep(lptr.Contents(), tbl.itcmnd) ==> OthersBelow(old(tbl.itcmnd), x)
    ensures forall i :: 0 <= i < |lptr.Nodes| ==> lptr.Nodes[i] in old(lptr.Nodes)
  {
    hide InStep, Folded, Cmp, Contents, Sorted, Dropped, NoTie, OthersBelow, Without, Renamed, Marked;
    ghost var al, t := lptr.Contents(), tbl.itcmnd;
    x := HasEntry(al, k, t);
    ghost var gone, last := tbl.RemovefromSymbolTablee(eptr.whatever.name);
    Removed(al, k, t, name, x, tbl.itcmnd, last);
    TakeOff(lptr, eptr, k);
  }

  /** `RemoveAlias`: the alias leaves the list, and list and table stay in step just
      when sorting the renamed entry x removes that entry and nothing else. */
  method RemoveAlias(lptr: List<Alias>, tbl: Table, name: Text) returns (r: int, ghost x: int)
    requires lptr.Valid() && InStep(lptr.Contents(), tbl.itcmnd)
    modifies lptr, lptr.Nodes, tbl
    ensures lptr.Valid() && (r == 0 || r == 1) && lptr.Contents() == Effect(old(lptr.Contents()), Remove(name))
    ensures Happened(old(lptr.Contents()), Remove(name), lptr.Contents())
    ensures r == 1 <==> Place(old(lptr.Contents()), name) < |old(lptr.Contents())|
    ensures r == 0 ==> tbl.itcmnd == old(tbl.itcmnd)
    ensures r == 1 ==> 0 <= x < |old(tbl.itcmnd)| && Same(name, old(tbl.itcmnd)[x].name)
    ensures r == 1 ==> (InStep(lptr.Contents(), tbl.itcmnd) <==> tbl.itcmnd == Without(old(tbl.itcmnd), x))
    ensures r == 1 && OthersBelow(old(tbl.itcmnd), x) ==> InStep(lptr.Contents(), tbl.itcmnd)
    ensures r == 1 && NoTie(old(tbl.itcmnd), x) && InStep(lptr.Contents(), tbl.itcmnd) ==> OthersBelow(old(tbl.itcmnd), x)
    ensures forall i :: 0 <= i < |lptr.Nodes| ==> lptr.Nodes[i] in old(lptr.Nodes)
  {
    hide InStep, Cmp, Dropped, NoTie, OthersBelow, Without, Happened;
    ghost var al := lptr.Contents();
    InStepApart(al, tbl.itcmnd);
    EffectMeans(al, Remove(name));
    var eptr;
    ghost var k;
    eptr, k := Find(lptr, name);
    x, r := -1, 0;
    if eptr != null {
      x := RemoveBoth(lptr, tbl, eptr, name, k);
      r := 1;
    }
  }

  lemma OnlyMarked(t: seq<Command>, x: nat, u: seq<Command>, c: Command)
    requires x < |t| && Renamed(t, x, u, c)
    ensures u == Without(t, x) ==> c == Marked(t, x)
  {
    hide Without, Marked;
    RenameBag(t, x, u, c);
    if u == Without(t, x) {
      assert multiset{c} == (multiset(u) + multiset{c}) - multiset(u) == multiset{Marked(t, x)};
      assert c in multiset{Marked(t, x)};
    }
  }

  /** List and table after a removal. */
  lemma Removed(al: seq<Alias>, i: nat, t: seq<Command>, name: Text, x: nat, u: seq<Command>, c: Command)
    requires InStep(al, t) && i < |al| && x < |t| && t[x] == Entry(al[i]) && Same(name, al[i].name)
    requires Renamed(t, x, u, c)
    ensures Same(name, t[x].name)
    ensures InStep(Dropped(al, i), u) <==> c == Marked(t, x)
    ensures u == Without(t, x) <==> c == Marked(t, x)
  {
    hide AliasMap, Folded, Cmp, Contents, NoTwins, Dropped, Without, Renamed, Marked, Sorted;
    InStepIsSorted(al, t);
    OnlyMarked(t, x, u, c);
    if c == Marked(t, x) {
      SentinelLast(t, x, u, c);
      WithoutContents(t, x);
      StepRemove(al, i, t, u);
    } else {
      StepNotRemoved(al, i, t, x, u, c);
    }
  }

  /** Any run of the two operations, the last of which has done what it is for, on built-in commands and aliases whose names sort
      below the sentinel: list and table stay in step, and the list is what the
      operations make of it. */
  method Session(lptr: List<Alias>, tbl: Table, ops: seq<Op>)
    requires lptr.Valid() && InStep(lptr.Contents(), tbl.itcmnd)
    requires AllBelow(tbl.itcmnd) && forall n :: 0 <= n < |ops| ==> Plain(ops[n])
    modifies lptr, lptr.Nodes, tbl
    ensures lptr.Valid() && InStep(lptr.Contents(), tbl.itcmnd) && AllBelow(tbl.itcmnd)
    ensures lptr.Contents() == EffectAll(old(lptr.Contents()), ops)
    ensures ops != [] ==> Happened(EffectAll(old(lptr.Contents()), ops[..|ops| - 1]), ops[|ops| - 1], lptr.Contents())
  {
    hide InStep, AllBelow, Effect, Cmp, Happened;
    ghost var al := lptr.Contents();
    for n := 0 to |ops|
      invariant lptr.Valid() && InStep(lptr.Contents(), tbl.itcmnd) && AllBelow(tbl.itcmnd)
      invariant lptr.Contents() == EffectAll(al, ops[..n])
      invariant n > 0 ==> Happened(EffectAll(al, ops[..n - 1]), ops[n - 1], lptr.Contents())
      invariant forall i :: 0 <= i < |lptr.Nodes| ==> lptr.Nodes[i] in old(lptr.Nodes) || fresh(lptr.Nodes[i])
    {
      EffectAllMore(al, ops[..n], ops[n]);
      assert ops[..n + 1] == ops[..n] + [ops[n]];
      Take(lptr, tbl, ops[n]);
    }
    assert ops[..|ops|] == ops;
  }

  method Take(lptr: List<Alias>, tbl: Table, op: Op)
    requires lptr.Valid() && InStep(lptr.Contents(), tbl.itcmnd) && AllBelow(tbl.itcmnd) && Plain(op)
    modifies lptr, lptr.Nodes, tbl
    ensures lptr.Valid() && InStep(lptr.Contents(), tbl.itcmnd) && AllBelow(tbl.itcmnd)
    ensures lptr.Contents() == Effect(old(lptr.Contents()), op) && Happened(old(lptr.Contents()), op, lptr.Contents())
    ensures forall i :: 0 <= i < |lptr.Nodes| ==> lptr.Nodes[i] in old(lptr.Nodes) || fresh(lptr.Nodes[i])
  {
    hide InStep, AllBelow, Cmp, Dropped, Defined, Without, Happened;
    match op
    case Add(name, what, help) =>
      var r := AddAlias(lptr, tbl, name, what, help);
    case Remove(name) =>
      var r;
      ghost var x, t := 0, tbl.itcmnd;
      r, x := RemoveAlias(lptr, tbl, name);
      if r == 1 { BelowWithout(t, x); }
  }

  /** Before the first alias: a table of built-in commands alone. */
  lemma StartsInStep(t: seq<Command>)
    requires Sorted(t) && forall k :: 0 <= k < |t| ==> t[k].attrs == 1
    ensures InStep([], t)
  {
    hide Cmp, Folded;
    assert AliasEntries(Contents(t)) == map[];
    assert AliasMap([]) == map[];
  }

  lemma InStepIsSorted(al: seq<Alias>, t: seq<Command>)
    requires InStep(al, t)
    ensures Sorted(t)
  {}
}
