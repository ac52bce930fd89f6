/** The users of a channel, src/chanusers.c: nodes that lie on one list in the
    order of arrival and each on one of 79 hash chains. */
module ChanUsers {
  import opened CString
  import opened List

  const HASHSIZE := 79
  const MAXNICKLEN := 32

  function Sum(s: Text): nat {
    if s == [] then 0 else Fold(s[0]) + Sum(s[1..])
  }

  /** `hashstr` */
  function Slot(s: Text): (i: nat)
    ensures i < HASHSIZE
  {
    Sum(s) % HASHSIZE
  }

  lemma {:induction false} SumOfFolded(a: Text, b: Text)
    requires Folded(a) == Folded(b)
    ensures Sum(a) == Sum(b)
  {
    if a != [] && b != [] {
      assert Folded(a)[1..] == Folded(a[1..]) && Folded(b)[1..] == Folded(b[1..]);
      SumOfFolded(a[1..], b[1..]);
    }
  }

  /** Nicks that are the same but for case hash alike. */
  lemma SameSlot(a: Text, b: Text)
    ensures Same(a, b) ==> Slot(a) == Slot(b)
  {
    SameIsFolded(a, b);
    if Same(a, b) { SumOfFolded(a, b); }
  }

  /** The first place of nick in a list of nicks, or the length of the list. */
  function Where(nicks: seq<Text>, nick: Text): (i: nat)
    ensures i <= |nicks| && (i < |nicks| ==> Same(nick, nicks[i]))
    ensures forall j :: 0 <= j < i ==> !Same(nick, nicks[j])
  {
    if nicks == [] || Same(nick, nicks[0]) then 0 else 1 + Where(nicks[1..], nick)
  }

  /** Place k is the first of that nick. */
  predicate FirstOf(nicks: seq<Text>, nick: Text, k: nat) {
    k < |nicks| && Same(nick, nicks[k]) && forall j :: 0 <= j < k ==> !Same(nick, nicks[j])
  }

  /** Nobody goes by that nick. */
  predicate Absent(nicks: seq<Text>, nick: Text) {
    match nicks case _ => forall i :: 0 <= i < |nicks| ==> !Same(nick, nicks[i])
  }

  lemma WhereIs(nicks: seq<Text>, nick: Text)
    ensures Where(nicks, nick) == |nicks| <==> Absent(nicks, nick)
    ensures forall k: nat :: FirstOf(nicks, nick, k) <==> k == Where(nicks, nick) < |nicks|
  {
    hide Same, Where;
  }

  /** The nicks once onick goes by another one. */
  function Renamed(nicks: seq<Text>, onick: Text, nnick: Text): (ns: seq<Text>)
    ensures |ns| == |nicks|
  {
    var k := Where(nicks, onick);
    if k < |nicks| then nicks[k := nnick] else nicks
  }

  predicate Unique(nicks: seq<Text>) {
    match nicks case _ => forall i, j :: 0 <= i < j < |nicks| ==> Folded(nicks[i]) != Folded(nicks[j])
  }

  class ChanUser {
    var nick: Text
    var next: ChanUser?
    var hnext: ChanUser?

    constructor (nick: Text)
      ensures this.nick == nick && next == null && hnext == null
    {
      this.nick, next, hnext := nick, null, null;
    }
  }

  /** The list threaded on `next`; `rear` means nothing while it is empty. */
  ghost predicate Listed(front: ChanUser?, rear: ChanUser?, n: int, us: seq<ChanUser>)
    reads us`next
  {
    match us
    case _ =>
      && n == |us|
      && (forall i, j :: 0 <= i < j < |us| ==> us[i] != us[j])
      && (forall i :: 0 <= i < |us| - 1 ==> us[i].next == us[i + 1])
      && (if us == [] then front == null
          else front == us[0] && rear == us[|us| - 1] && us[|us| - 1].next == null)
  }

  /** One hash chain, threaded on `hnext`. */
  ghost predicate Chain(head: ChanUser?, c: seq<ChanUser>)
    reads c`hnext
  {
    match c
    case _ =>
      && head == (if c == [] then null else c[0])
      && (forall i, j :: 0 <= i < j < |c| ==> c[i] != c[j])
      && (forall i :: 0 <= i < |c| - 1 ==> c[i].hnext == c[i + 1])
      && (c != [] ==> c[|c| - 1].hnext == null)
  }

  /** All the chains, made of users of this channel. */
  ghost predicate Chained(Hash: array<ChanUser?>, us: seq<ChanUser>, chains: seq<seq<ChanUser>>)
    reads Hash, us`hnext
  {
    match us
    case _ =>
      && |chains| == Hash.Length == HASHSIZE
      && (forall i, j :: 0 <= i < HASHSIZE && 0 <= j < |chains[i]| ==> chains[i][j] in us)
      && (forall i :: 0 <= i < HASHSIZE ==> Chain(Hash[i], chains[i]))
  }

  /** Chain i shares no node with another. */
  ghost predicate Apart(chains: seq<seq<ChanUser>>, i: nat)
    requires i < |chains|
  {
    match i
    case _ =>
      forall k, x, y :: 0 <= k < |chains| && k != i && 0 <= x < |chains[k]| && 0 <= y < |chains[i]| ==>
        chains[k][x] != chains[i][y]
  }

  /** Every user is in the chain of its nick, and the chains hold nobody else. */
  ghost predicate Filed(us: seq<ChanUser>, chains: seq<seq<ChanUser>>)
    reads us`nick
  {
    match us
    case _ =>
      && |chains| == HASHSIZE
      && (forall i, u :: 0 <= i < HASHSIZE && u in chains[i] ==> u in us && Slot(u.nick) == i)
      && (forall u :: u in us ==> u in chains[Slot(u.nick)])
  }

  /** `HashChanuser`: a node goes to the front of its chain. */
  method HashChanuser(i: nat, Hash: array<ChanUser?>, uptr: ChanUser, ghost c: seq<ChanUser>)
    requires i < Hash.Length && Chain(Hash[i], c) && uptr !in c
    modifies Hash, uptr`hnext
    ensures Chain(Hash[i], [uptr] + c)
    ensures forall k :: 0 <= k < Hash.Length && k != i ==> Hash[k] == old(Hash[k])
  {
    var aux := Hash[i];
    Hash[i] := uptr;
    uptr.hnext := aux;
    ghost var d := [uptr] + c;
    assert |d| > 1 ==> d[|d| - 1] == c[|c| - 1] && d[1] == c[0];
  }

  /** `UnhashChanuser`: a node leaves its chain, wherever it is in it. */
  method UnhashChanuser(nick: Text, Hash: array<ChanUser?>, uptr: ChanUser, ghost c: seq<ChanUser>) returns (ghost k: nat)
    requires Hash.Length == HASHSIZE && Chain(Hash[Slot(nick)], c) && uptr in c
    modifies Hash, c`hnext
    ensures k < |c| && c[k] == uptr && Chain(Hash[Slot(nick)], Dropped(c, k))
    ensures forall j :: 0 <= j < Hash.Length && j != Slot(nick) ==> Hash[j] == old(Hash[j])
  {
    hide Dropped;
    var i := Slot(nick);
    k := 0;
    if uptr == Hash[i] {
      if uptr.hnext == null {
        Hash[i] := null;
      } else {
        var aux := uptr.hnext;
        Hash[i] := aux;
      }
      uptr.hnext := null;
    } else {
      var found := false;
      var prev: ChanUser? := null;
      var aux := Hash[i];
      while aux != null && !found
        invariant 0 <= k <= |c| && uptr in c[k..]
        invariant aux == if k < |c| then c[k] else null
        invariant prev == if k == 0 then null else c[k - 1]
        invariant found ==> aux == uptr
        decreases |c| - k, !found
      {
        if aux == uptr {
          found := true;
        } else {
          prev := aux;
          aux := aux.hnext;
          k := k + 1;
        }
      }
      if aux.hnext == null {
        prev.hnext := null;
      } else {
        prev.hnext := aux.hnext;
      }
      aux.hnext := null;
    }
    ghost var d := Dropped(c, k);
    assert d != [] ==> d[|d| - 1] == c[if |d| - 1 < k then |d| - 1 else |d|];
  }

  lemma FiledAdd(us: seq<ChanUser>, chains: seq<seq<ChanUser>>, u: ChanUser)
    requires Filed(us, chains)
    ensures var i := Slot(u.nick); Filed(us + [u], chains[i := [u] + chains[i]])
  {
    hide Slot;
  }

  lemma FiledDrop(us: seq<ChanUser>, chains: seq<seq<ChanUser>>, k: nat, j: nat)
    requires Filed(us, chains) && k < |us|
    requires var c := chains[Slot(us[k].nick)];
             j < |c| && c[j] == us[k] && forall x, y :: 0 <= x < y < |c| ==> c[x] != c[y]
    requires forall x, y :: 0 <= x < y < |us| ==> us[x] != us[y]
    ensures var i := Slot(us[k].nick); Filed(Dropped(us, k), chains[i := Dropped(chains[i], j)])
  {
    assert |chains| == HASHSIZE;
    hide Slot, Dropped, Filed;
    var i := Slot(us[k].nick);
    DroppedHolds(us, k);
    DroppedHolds(chains[i], j);
    FiledSet(us, chains, us[k], Dropped(us, k), Dropped(chains[i], j));
  }

  lemma DroppedHolds<X>(s: seq<X>, k: nat)
    requires k < |s| && forall x, y :: 0 <= x < y < |s| ==> s[x] != s[y]
    ensures forall e :: e in Dropped(s, k) <==> e in s && e != s[k]
  {
    hide Dropped;
    var d := Dropped(s, k);
    forall x | 0 <= x < |s| && x != k ensures s[x] in d { assert s[x] == d[if x < k then x else x - 1]; }
    forall x | 0 <= x < |d| ensures d[x] in s && d[x] != s[k] { assert d[x] == s[if x < k then x else x + 1]; }
  }

  lemma FiledSet(us: seq<ChanUser>, chains: seq<seq<ChanUser>>, u: ChanUser, vs: seq<ChanUser>, c: seq<ChanUser>)
    requires Filed(us, chains) && u in us
    requires forall e :: e in vs <==> e in us && e != u
    requires forall e :: e in c <==> e in chains[Slot(u.nick)] && e != u
    ensures Filed(vs, chains[Slot(u.nick) := c])
  {
    hide Slot;
  }

  lemma FiledSame(us: seq<ChanUser>, vs: seq<ChanUser>, chains: seq<seq<ChanUser>>)
    requires Filed(us, chains) && forall e :: e in vs <==> e in us
    ensures Filed(vs, chains)
  {
    hide Slot;
  }

  ghost function Nicks(us: seq<ChanUser>): (n: seq<Text>)
    reads us`nick
    ensures |n| == |us| && forall i :: 0 <= i < |n| ==> n[i] == us[i].nick
  {
    if us == [] then [] else Nicks(us[..|us| - 1]) + [us[|us| - 1].nick]
  }

  class Channel {
    var front: ChanUser?
    var rear: ChanUser?
    var nEntries: int
    const Hash: array<ChanUser?>
    ghost var Users: seq<ChanUser>
    ghost var Chains: seq<seq<ChanUser>>

    ghost predicate Valid()
      reads this, Hash, Users
    {
      match nEntries
      case _ =>
        && Listed(front, rear, nEntries, Users) && Chained(Hash, Users, Chains)
        && Filed(Users, Chains) && Unique(Nicks(Users))
    }

    constructor ()
      ensures Valid() && Users == [] && fresh(Hash)
    {
      front, rear, nEntries := null, null, 0;
      Hash := new ChanUser?[HASHSIZE](_ => null);
      Users, Chains := [], seq(HASHSIZE, _ => []);
    }

    /** `userbychptr`: the hash lookup finds what a search of the list would. */
    method userbychptr(nick: Text) returns (u: ChanUser?)
      requires Valid()
      ensures var k := Where(Nicks(Users), nick);
              u == if k < |Users| then Users[k] else null
    {
      hide Cmp, Slot, Where;
      var i := Slot(nick);
      u := Hash[i];
      ghost var c, j := Chains[i], 0;
      while u != null && !Same(nick, u.nick)
        invariant 0 <= j <= |c| && u == if j < |c| then c[j] else null
        invariant forall x :: 0 <= x < j ==> !Same(nick, c[x].nick)
        decreases |c| - j
      {
        u, j := u.hnext, j + 1;
      }
      InItsChain(nick, u, j);
    }

    lemma InItsChain(nick: Text, u: ChanUser?, j: nat)
      requires Valid()
      requires var c := Chains[Slot(nick)];
               && j <= |c| && u == (if j < |c| then c[j] else null)
               && (forall x :: 0 <= x < j ==> c[x] in Users && !Same(nick, c[x].nick))
               && (u != null ==> Same(nick, u.nick))
      ensures var k := Where(Nicks(Users), nick);
              u == if k < |Users| then Users[k] else null
    {
      hide Cmp, Slot, Where, Chained, Listed;
      var c, k := Chains[Slot(nick)], Where(Nicks(Users), nick);
      if k < |Users| {
        SameSlot(nick, Users[k].nick);
        assert Users[k] in c;
        var x :| 0 <= x < |c| && c[x] == Users[k];
      }
      if u != null {
        assert u in c;
        var y :| 0 <= y < |Users| && Users[y] == u;
        OnlyOne(Nicks(Users), nick, y);
      }
    }

    lemma NotInChains()
      requires Valid()
      ensures |Chains| == HASHSIZE && Hash.Length == HASHSIZE
      ensures forall k, u :: 0 <= k < HASHSIZE && u in Chains[k] ==> u in Users && Slot(u.nick) == k
    {
      hide Chain, Listed, Unique, Slot;
    }

    /** The list half of adding. */
    method Append(uptr: ChanUser)
      requires Listed(front, rear, nEntries, Users) && uptr !in Users && uptr.next == null
      modifies this`front, this`rear, this`nEntries, this`Users, Users`next
      ensures Users == old(Users) + [uptr] && Listed(front, rear, nEntries, Users)
    {
      if nEntries != 0 {
        rear.next := uptr;
        rear := uptr;
      } else {
        front, rear := uptr, uptr;
      }
      nEntries := nEntries + 1;
      Users := Users + [uptr];
    }

    /** A node goes to the front of chain i of this channel. */
    method Enhash(i: nat, uptr: ChanUser, ghost us: seq<ChanUser>)
      requires Chained(Hash, us, Chains) && i < HASHSIZE
      requires forall k :: 0 <= k < HASHSIZE ==> uptr !in Chains[k]
      modifies Hash, uptr`hnext, this`Chains
      ensures Chains == old(Chains)[i := [uptr] + old(Chains)[i]]
      ensures Chained(Hash, us + [uptr], Chains)
    {
      hide Chain;
      HashChanuser(i, Hash, uptr, Chains[i]);
      ghost var cs := Chains;
      Chains := cs[i := [uptr] + cs[i]];
      forall k | 0 <= k < HASHSIZE ensures Chain(Hash[k], Chains[k]) {}
    }

    /** Both halves of adding. */
    method Attach(i: nat, uptr: ChanUser)
      requires Listed(front, rear, nEntries, Users) && Chained(Hash, Users, Chains) && i < HASHSIZE
      requires uptr !in Users && uptr.next == null && forall k :: 0 <= k < HASHSIZE ==> uptr !in Chains[k]
      modifies this`front, this`rear, this`nEntries, this`Users, this`Chains, Users`next, uptr`hnext, Hash
      ensures Users == old(Users) + [uptr] && Listed(front, rear, nEntries, Users)
      ensures Chains == old(Chains)[i := [uptr] + old(Chains)[i]] && Chained(Hash, Users, Chains)
    {
      hide Listed, Chained;
      ghost var us := Users;
      Append(uptr);
      Enhash(i, uptr, us);
    }

    /** `AddChanuser`: the user comes last on the list and can be looked up. */
    method AddChanuser(nick: Text) returns (uptr: ChanUser)
      requires Valid() && |nick| < MAXNICKLEN && Where(Nicks(Users), nick) == |Users|
      modifies this, Hash, Users
      ensures Valid() && fresh(uptr) && Users == old(Users) + [uptr] && Nicks(Users) == old(Nicks(Users)) + [nick]
    {
      hide Cmp, Slot, Where, Unique, Chained, Listed, Filed, Valid;
      NotInChains();
      Parts();
      uptr := new ChanUser(nick);
      FiledAdd(Users, Chains, uptr);
      UniqueAdd(Nicks(Users), nick);
      NicksAdd(Users, uptr);
      Attach(Slot(uptr.nick), uptr);
      Assemble();
    }

    /** `AddUserToChannel`, once the channel is found: nobody is added twice. */
    method AddUserToChannel(nick: Text) returns (uptr: ChanUser?)
      requires Valid() && |nick| < MAXNICKLEN
      modifies this, Hash, Users
      ensures Valid() && (uptr == null <==> Where(old(Nicks(Users)), nick) < |old(Users)|)
      ensures uptr == null ==> Users == old(Users) && Nicks(Users) == old(Nicks(Users))
      ensures uptr != null ==> fresh(uptr) && Users == old(Users) + [uptr] && Nicks(Users) == old(Nicks(Users)) + [nick]
    {
      hide Cmp, Slot, Where, Unique, Chain, Listed, Filed;
      uptr := userbychptr(nick);
      if uptr != null { return null; }
      uptr := AddChanuser(nick);
    }

    /** A node leaves the chain of `nick` in this channel. */
    method Dehash(nick: Text, uptr: ChanUser, ghost us: seq<ChanUser>) returns (ghost j: nat)
      requires Chained(Hash, us, Chains) && uptr in Chains[Slot(nick)]
      requires Apart(Chains, Slot(nick))
      modifies Hash, us`hnext, this`Chains
      ensures j < |old(Chains)[Slot(nick)]| && old(Chains)[Slot(nick)][j] == uptr
      ensures Chains == old(Chains)[Slot(nick) := Dropped(old(Chains)[Slot(nick)], j)]
      ensures Chained(Hash, us, Chains)
    {
      hide Chain, Slot, Dropped;
      var i := Slot(nick);
      ghost var cs := Chains;
      j := UnhashChanuser(nick, Hash, uptr, cs[i]);
      Chains := cs[i := Dropped(cs[i], j)];
      forall k | 0 <= k < HASHSIZE ensures Chain(Hash[k], Chains[k]) {}
      forall k, x | 0 <= k < HASHSIZE && 0 <= x < |Chains[k]| ensures Chains[k][x] in us {
        if k == i { assert Chains[k][x] == cs[i][if x < j then x else x + 1]; }
      }
    }

    /** The search of both removals. */
    method FindOnList(nick: Text) returns (uptr: ChanUser?, prev: ChanUser?, ghost k: nat)
      requires Listed(front, rear, nEntries, Users)
      ensures k == Where(Nicks(Users), nick)
      ensures uptr == (if k < |Users| then Users[k] else null) && prev == if k == 0 then null else Users[k - 1]
    {
      hide Cmp;
      uptr, prev, k := front, null, 0;
      while uptr != null && !Same(uptr.nick, nick)
        invariant 0 <= k <= |Users| && uptr == if k < |Users| then Users[k] else null
        invariant prev == if k == 0 then null else Users[k - 1]
        invariant forall j :: 0 <= j < k ==> !Same(Nicks(Users)[j], nick)
        decreases |Users| - k
      {
        prev, uptr, k := uptr, uptr.next, k + 1;
      }
      forall j | 0 <= j < |Users| ensures Same(Nicks(Users)[j], nick) <==> Same(nick, Nicks(Users)[j]) {
        Anti(nick, Nicks(Users)[j]);
      }
    }

    /** The list half of removing. */
    method Unlist(uptr: ChanUser, prev: ChanUser?, ghost k: nat)
      requires Listed(front, rear, nEntries, Users)
      requires k < |Users| && uptr == Users[k] && prev == if k == 0 then null else Users[k - 1]
      modifies this`front, this`rear, this`nEntries, this`Users, Users`next
      ensures Users == Dropped(old(Users), k) && Listed(front, rear, nEntries, Users)
    {
      hide Dropped;
      assert uptr.next == if k + 1 < |Users| then Users[k + 1] else null;
      if prev == null {
        front := uptr.next;
      } else if uptr.next == null {
        rear := prev;
        rear.next := null;
      } else {
        prev.next := uptr.next;
      }
      nEntries := nEntries - 1;
      Users := Dropped(Users, k);
      assert Users != [] ==> Users[|Users| - 1] == old(Users)[if |Users| - 1 < k then |Users| - 1 else |Users|];
    }

    /** Both halves of removing. */
    method Detach(uptr: ChanUser, prev: ChanUser?, ghost k: nat) returns (ghost j: nat)
      requires Listed(front, rear, nEntries, Users) && Chained(Hash, Users, Chains)
      requires k < |Users| && uptr == Users[k] && prev == if k == 0 then null else Users[k - 1]
      requires uptr in Chains[Slot(uptr.nick)] && Apart(Chains, Slot(uptr.nick))
      modifies this`front, this`rear, this`nEntries, this`Users, this`Chains, Users`next, Users`hnext, Hash
      ensures Users == Dropped(old(Users), k) && Listed(front, rear, nEntries, Users)
      ensures j < |old(Chains)[Slot(uptr.nick)]| && old(Chains)[Slot(uptr.nick)][j] == uptr
      ensures Chains == old(Chains)[Slot(uptr.nick) := Dropped(old(Chains)[Slot(uptr.nick)], j)]
      ensures Chained(Hash, old(Users), Chains)
    {
      hide Slot, Listed, Dropped, Apart, Chain;
      ghost var us := Users;
      Unlist(uptr, prev, k);
      j := Dehash(uptr.nick, uptr, us);
    }

    /** `RemoveChanUserbychptr`: the user leaves the list and the chain, the
        others keep their order. */
    method RemoveChanUserbychptr(nick: Text) returns (found: bool)
      requires Valid()
      modifies this, Hash, Users
      ensures Valid()
      ensures var k := Where(old(Nicks(Users)), nick);
              && found == (k < |old(Users)|)
              && Users == (if found then Dropped(old(Users), k) else old(Users))
              && Nicks(Users) == if found then Dropped(old(Nicks(Users)), k) else old(Nicks(Users))
    {
      hide Cmp, Slot, Where, Unique, Chained, Listed, Filed, Dropped, Valid;
      Parts();
      ghost var us, cs, k := Users, Chains, 0;
      var uptr, prev;
      uptr, prev, k := FindOnList(nick);
      if uptr == null { return false; }
      ReadyToDrop(k);
      ghost var j := Detach(uptr, prev, k);
      AfterDrop(us, cs, k, j);
      found := true;
    }

    lemma ReadyToDrop(k: nat)
      requires Valid() && k < |Users|
      ensures |Chains| == HASHSIZE && Users[k] in Chains[Slot(Users[k].nick)]
      ensures Apart(Chains, Slot(Users[k].nick))
      ensures forall x, y :: 0 <= x < y < |Users| ==> Users[x] != Users[y]
      ensures var c := Chains[Slot(Users[k].nick)]; forall x, y :: 0 <= x < y < |c| ==> c[x] != c[y]
    {
      hide Slot, Unique;
      forall i, x | 0 <= i < HASHSIZE && 0 <= x < |Chains[i]| ensures Slot(Chains[i][x].nick) == i {
        assert Chains[i][x] in Chains[i];
      }
    }

    lemma AfterDrop(us: seq<ChanUser>, cs: seq<seq<ChanUser>>, k: nat, j: nat)
      requires k < |us| && Filed(us, cs) && Unique(Nicks(us)) && Users == Dropped(us, k)
      requires (forall x, y :: 0 <= x < y < |us| ==> us[x] != us[y])
      requires var c := cs[Slot(us[k].nick)];
               && j < |c| && c[j] == us[k] && (forall x, y :: 0 <= x < y < |c| ==> c[x] != c[y])
               && Chains == cs[Slot(us[k].nick) := Dropped(c, j)]
      requires Listed(front, rear, nEntries, Users) && Chained(Hash, us, Chains)
      ensures Valid() && Nicks(Users) == Dropped(Nicks(us), k)
    {
      hide Slot, Unique, Listed, Dropped, Chain;
      FiledDrop(us, cs, k, j);
      forall i, x | 0 <= i < HASHSIZE && 0 <= x < |Chains[i]| ensures Chains[i][x] in Users {
        assert Chains[i][x] in Chains[i];
      }
      NicksDrop(us, k);
      UniqueDrop(Nicks(us), k);
    }

    /** The user who is called `onick` keeps its place on the list and moves to the chain
        of its new nick. */
    method MoveToChain(onick: Text, nnick: Text)
      requires Valid() && |nnick| < MAXNICKLEN
      requires Unclaimed(Nicks(Users), onick, nnick)
      modifies this, Hash, Users
      ensures Valid() && Users == old(Users) && Nicks(Users) == Renamed(old(Nicks(Users)), onick, nnick)
    {
      hide Cmp, Slot, Where, Unique, Chained, Listed, Filed, Dropped, Apart, Valid;
      var uptr := userbychptr(onick);
      if uptr == null { return; }
      ghost var us, cs, k, n := Users, Chains, Where(Nicks(Users), onick), Nicks(Users);
      SameSlot(onick, uptr.nick);
      Parts();
      ReadyToDrop(k);
      ghost var j := PlaceInChain(us, cs, k);
      FiledDrop(us, cs, k, j);
      DroppedHolds(us, k);
      UniqueSet(n, k, onick, nnick);
      uptr.nick := nnick;
      NicksSet(us, n, k, nnick);
      Rehash(onick, nnick, uptr, k, j);
      Assemble();
    }

    /** What `UpdateChanuserNick` does in one channel: the first user called `onick` goes
        by the new nick, under which it is found then; the others keep theirs. */
    method RenameUser(onick: Text, nnick: Text)
      requires Valid() && |nnick| < MAXNICKLEN
      requires Unclaimed(Nicks(Users), onick, nnick)
      modifies this, Hash, Users
      ensures Valid() && Users == old(Users) && Nicks(Users) == Renamed(old(Nicks(Users)), onick, nnick)
      ensures forall i :: 0 <= i < |Users| ==>
        Users[i].nick == if FirstOf(old(Nicks(Users)), onick, i) then nnick else old(Nicks(Users))[i]
      ensures forall k: nat :: FirstOf(old(Nicks(Users)), onick, k) ==> FirstOf(Nicks(Users), nnick, k)
    {
      hide Valid, Unclaimed, Nicks, Renamed, FirstOf;
      UniqueNow();
      RenamedMeans(Nicks(Users), onick, nnick);
      MoveToChain(onick, nnick);
      assert forall i :: 0 <= i < |Users| ==> Nicks(Users)[i] == Users[i].nick;
    }

    lemma UniqueNow()
      requires Valid()
      ensures Unique(Nicks(Users))
    {
      hide Listed, Chained, Filed, Unique;
    }

    /** From the chain of the old nick to that of the new one. */
    method Rehash(onick: Text, nnick: Text, uptr: ChanUser, ghost k: nat, ghost j: nat)
      requires k < |Users| && Users[k] == uptr && uptr.nick == nnick
      requires forall x, y :: 0 <= x < y < |Users| ==> Users[x] != Users[y]
      requires Chained(Hash, Users, Chains) && |Chains| == HASHSIZE && Apart(Chains, Slot(onick))
      requires j < |Chains[Slot(onick)]| && Chains[Slot(onick)][j] == uptr
      requires var c := Chains[Slot(onick)]; forall x, y :: 0 <= x < y < |c| ==> c[x] != c[y]
      requires Filed(Dropped(Users, k), Chains[Slot(onick) := Dropped(Chains[Slot(onick)], j)])
      modifies Hash, Users`hnext, this`Chains
      ensures Chained(Hash, Users, Chains) && Filed(Users, Chains)
    {
      hide Slot, Chained, Filed, Dropped, Apart;
      ghost var us, cs := Users, Chains;
      ghost var j1 := Dehash(onick, uptr, us);
      GoneFromChains(cs, Slot(onick), j, cs[Slot(onick) := Dropped(cs[Slot(onick)], j)]);
      FiledAdd(Dropped(us, k), Chains, uptr);
      Enhash(Slot(nnick), uptr, us);
      DroppedHolds(us, k);
      FiledSame(Dropped(us, k) + [uptr], us, Chains);
      ChainedSame(Hash, us, uptr, Chains);
    }

    /** One thing that can happen to a channel. */
    method Happen(op: Op)
      requires Valid() && Legal(Nicks(Users), op)
      modifies this, Hash, Users
      ensures Valid() && Nicks(Users) == Effect(old(Nicks(Users)), op)
      ensures Happened(old(Nicks(Users)), op, Nicks(Users))
      ensures forall i :: 0 <= i < |Users| ==> Users[i] in old(Users) || fresh(Users[i])
    {
      hide Valid, Where, Nicks, Dropped, Renamed, Unclaimed, Happened;
      UniqueNow();
      EffectMeans(Nicks(Users), op);
      match op
      case Join(nick) =>
        var uptr := AddUserToChannel(nick);
      case Part(nick) =>
        ghost var us := Users;
        var found := RemoveChanUserbychptr(nick);
        if found { DroppedIn(us, Where(old(Nicks(Users)), nick)); }
      case Nick(onick, nnick) =>
        RenameUser(onick, nnick);
    }

    /** Any run of joins, parts and changes of nick that keep nicks apart: the users are
        those that the run leaves, in order, and the hash finds them; the last of the run
        has done to them what it is for. */
    method Session(ops: seq<Op>, probe: Text) returns (u: ChanUser?)
      requires Valid() && LegalAll(Nicks(Users), ops)
      modifies this, Hash, Users
      ensures Valid() && Nicks(Users) == EffectAll(old(Nicks(Users)), ops)
      ensures ops != [] ==> Happened(EffectAll(old(Nicks(Users)), ops[..|ops| - 1]), ops[|ops| - 1], Nicks(Users))
      ensures u == null <==> Absent(Nicks(Users), probe)
      ensures forall k: nat :: FirstOf(Nicks(Users), probe, k) ==> u == Users[k]
    {
      hide Valid, Where, Nicks, Effect, Legal, Happened, FirstOf, Absent;
      ghost var ns := Nicks(Users);
      for n := 0 to |ops|
        invariant Valid() && LegalAll(Nicks(Users), ops[n..])
        invariant Nicks(Users) == EffectAll(ns, ops[..n])
        invariant n > 0 ==> Happened(EffectAll(ns, ops[..n - 1]), ops[n - 1], Nicks(Users))
        invariant forall i :: 0 <= i < |Users| ==> Users[i] in old(Users) || fresh(Users[i])
      {
        assert ops[n..][0] == ops[n] && ops[n..][1..] == ops[n + 1..];
        EffectAllMore(ns, ops[..n], ops[n]);
        assert ops[..n + 1] == ops[..n] + [ops[n]];
        Happen(ops[n]);
      }
      assert ops[..|ops|] == ops;
      u := userbychptr(probe);
      WhereIs(Nicks(Users), probe);
    }

    lemma Parts()
      requires Valid()
      ensures Listed(front, rear, nEntries, Users) && Chained(Hash, Users, Chains)
      ensures Filed(Users, Chains) && Unique(Nicks(Users))
    {
      hide Listed, Chained, Filed, Unique;
    }

    lemma Assemble()
      requires Listed(front, rear, nEntries, Users) && Chained(Hash, Users, Chains)
      requires Filed(Users, Chains) && Unique(Nicks(Users))
      ensures Valid()
    {
      hide Listed, Chained, Filed, Unique;
    }
  }

  lemma DroppedIn(us: seq<ChanUser>, k: nat)
    requires k < |us|
    ensures forall i :: 0 <= i < |us| - 1 ==> Dropped(us, k)[i] in us
  {}

  /** What can happen to the users of a channel, as nicks. */
  datatype Op = Join(nick: Text) | Part(nick: Text) | Nick(onick: Text, nnick: Text)

  function Effect(nicks: seq<Text>, op: Op): seq<Text> {
    match op
    case Join(nick) => if Where(nicks, nick) < |nicks| then nicks else nicks + [nick]
    case Part(nick) => if Where(nicks, nick) < |nicks| then Dropped(nicks, Where(nicks, nick)) else nicks
    case Nick(onick, nnick) => Renamed(nicks, onick, nnick)
  }

  function EffectAll(nicks: seq<Text>, ops: seq<Op>): seq<Text>
    decreases |ops|
  {
    if ops == [] then nicks else EffectAll(Effect(nicks, ops[0]), ops[1..])
  }

  lemma {:induction false} EffectAllMore(nicks: seq<Text>, ops: seq<Op>, op: Op)
    ensures EffectAll(nicks, ops + [op]) == Effect(EffectAll(nicks, ops), op)
    decreases |ops|
  {
    hide Effect;
    if ops == [] {
      assert [] + [op] == [op] && [op][1..] == [];
    } else {
      EffectAllMore(Effect(nicks, ops[0]), ops[1..], op);
      assert (ops + [op])[1..] == ops[1..] + [op];
    }
  }

  /** What each of them is for: who joins is there, last, unless he was there before; who
      parts is not there any more, and the others are, in order; who changes his nick
      keeps his place and goes by the new one, the others by theirs. */
  ghost predicate Happened(was: seq<Text>, op: Op, now: seq<Text>) {
    match op
    case Join(nick) =>
      && !Absent(now, nick)
      && (Absent(was, nick) ==> now == was + [nick]) && (!Absent(was, nick) ==> now == was)
    case Part(nick) =>
      && Absent(now, nick) && (Absent(was, nick) ==> now == was)
      && forall k: nat :: FirstOf(was, nick, k) ==> now == was[..k] + was[k + 1..]
    case Nick(onick, nnick) =>
      && |now| == |was| && (forall i :: 0 <= i < |was| ==> now[i] == if FirstOf(was, onick, i) then nnick else was[i])
      && forall k: nat :: FirstOf(was, onick, k) ==> FirstOf(now, nnick, k)
  }

  lemma EffectMeans(nicks: seq<Text>, op: Op)
    requires Unique(nicks) && Legal(nicks, op)
    ensures Happened(nicks, op, Effect(nicks, op))
  {
    match op
    case Join(nick) => JoinMeans(nicks, nick);
    case Part(nick) => PartMeans(nicks, nick);
    case Nick(onick, nnick) => RenamedMeans(nicks, onick, nnick);
  }

  lemma JoinMeans(nicks: seq<Text>, nick: Text)
    ensures Happened(nicks, Join(nick), Effect(nicks, Join(nick)))
  {
    hide Same, Where;
    WhereIs(nicks, nick);
    SameSelf(nick);
    assert (nicks + [nick])[|nicks|] == nick;
  }

  lemma SameSelf(nick: Text)
    ensures Same(nick, nick)
  {
    SameIsFolded(nick, nick);
  }

  lemma PartMeans(nicks: seq<Text>, nick: Text)
    requires Unique(nicks)
    ensures Happened(nicks, Part(nick), Effect(nicks, Part(nick)))
  {
    hide Same, Where, Folded, FirstOf;
    WhereIs(nicks, nick);
    var k := Where(nicks, nick);
    forall i | 0 <= i < |nicks| && i != k ensures !Same(nick, nicks[i]) {
      if Same(nick, nicks[i]) { OnlyOne(nicks, nick, i); }
    }
  }

  lemma RenamedMeans(nicks: seq<Text>, onick: Text, nnick: Text)
    requires Unique(nicks) && Unclaimed(nicks, onick, nnick)
    ensures var now := Renamed(nicks, onick, nnick);
            && (forall i :: 0 <= i < |nicks| ==> now[i] == if FirstOf(nicks, onick, i) then nnick else nicks[i])
            && forall k: nat :: FirstOf(nicks, onick, k) ==> FirstOf(now, nnick, k)
  {
    hide Same, Where, Folded;
    WhereIs(nicks, onick);
    SameSelf(nnick);
    var k := Where(nicks, onick);
    forall i | 0 <= i < k ensures !Same(nnick, nicks[i]) {}
  }

  /** Nicks fit their cells, and a user does not take another's. */
  predicate Legal(nicks: seq<Text>, op: Op) {
    match op
    case Join(nick) => |nick| < MAXNICKLEN
    case Part(_) => true
    case Nick(onick, nnick) => |nnick| < MAXNICKLEN && Unclaimed(nicks, onick, nnick)
  }

  predicate LegalAll(nicks: seq<Text>, ops: seq<Op>)
    decreases |ops|
  {
    ops == [] || (Legal(nicks, ops[0]) && LegalAll(Effect(nicks, ops[0]), ops[1..]))
  }

  /** Nobody else in the channel goes by the new nick already. */
  predicate Unclaimed(nicks: seq<Text>, onick: Text, nnick: Text) {
    match nicks case _ => forall i :: 0 <= i < |nicks| && Same(nnick, nicks[i]) ==> Same(onick, nicks[i])
  }

  lemma UniqueSet(nicks: seq<Text>, k: nat, onick: Text, nnick: Text)
    requires Unique(nicks) && Unclaimed(nicks, onick, nnick) && k < |nicks| && Same(onick, nicks[k])
    ensures Unique(nicks[k := nnick])
  {
    hide Cmp, Folded;
    forall i | 0 <= i < |nicks| && i != k ensures Folded(nicks[i]) != Folded(nnick) {
      SameIsFolded(onick, nicks[k]);
      SameIsFolded(onick, nicks[i]);
      SameIsFolded(nnick, nicks[i]);
    }
  }

  lemma PlaceInChain(us: seq<ChanUser>, chains: seq<seq<ChanUser>>, k: nat) returns (j: nat)
    requires Filed(us, chains) && k < |us|
    ensures |chains| == HASHSIZE
    ensures j < |chains[Slot(us[k].nick)]| && chains[Slot(us[k].nick)][j] == us[k]
  {
    hide Slot;
    assert us[k] in chains[Slot(us[k].nick)];
    j :| j < |chains[Slot(us[k].nick)]| && chains[Slot(us[k].nick)][j] == us[k];
  }

  lemma {:induction false} NicksSet(us: seq<ChanUser>, was: seq<Text>, k: nat, nick: Text)
    requires k < |us| == |was| && us[k].nick == nick
    requires forall i :: 0 <= i < |us| && i != k ==> us[i].nick == was[i]
    ensures Nicks(us) == was[k := nick]
  {}

  lemma GoneFromChains(chains: seq<seq<ChanUser>>, i: nat, j: nat, rest: seq<seq<ChanUser>>)
    requires i < |chains| && j < |chains[i]| && Apart(chains, i)
    requires forall x, y :: 0 <= x < y < |chains[i]| ==> chains[i][x] != chains[i][y]
    requires rest == chains[i := Dropped(chains[i], j)]
    ensures forall k :: 0 <= k < |rest| ==> chains[i][j] !in rest[k]
    ensures forall x :: 0 <= x < |chains[i]| && chains[i][x] == chains[i][j] ==> x == j
  {
    hide Dropped;
    DroppedHolds(chains[i], j);
  }

  lemma ChainedSame(Hash: array<ChanUser?>, us: seq<ChanUser>, u: ChanUser, chains: seq<seq<ChanUser>>)
    requires Chained(Hash, us + [u], chains) && u in us
    ensures Chained(Hash, us, chains)
  {
    hide Chain;
  }

  lemma {:induction false} NicksDrop(us: seq<ChanUser>, k: nat)
    requires k < |us|
    ensures Nicks(Dropped(us, k)) == Dropped(Nicks(us), k)
  {
    hide Dropped;
    var d, n := Dropped(us, k), Nicks(us);
    forall i | 0 <= i < |d| ensures Nicks(d)[i] == Dropped(n, k)[i] {
      assert d[i] == us[if i < k then i else i + 1];
    }
  }

  lemma UniqueDrop(nicks: seq<Text>, k: nat)
    requires Unique(nicks) && k < |nicks|
    ensures Unique(Dropped(nicks, k))
  {
    hide Dropped, Folded;
    var d := Dropped(nicks, k);
    forall i, j | 0 <= i < j < |d| ensures Folded(d[i]) != Folded(d[j]) {
      assert d[i] == nicks[if i < k then i else i + 1] && d[j] == nicks[if j < k then j else j + 1];
    }
  }

  lemma NicksAdd(us: seq<ChanUser>, u: ChanUser)
    ensures Nicks(us + [u]) == Nicks(us) + [u.nick]
  {
    assert (us + [u])[..|us|] == us;
  }

  lemma UniqueAdd(nicks: seq<Text>, nick: Text)
    requires Unique(nicks) && Where(nicks, nick) == |nicks|
    ensures Unique(nicks + [nick])
  {
    hide Cmp, Folded, Where;
    forall j | 0 <= j < |nicks| ensures Folded(nicks[j]) != Folded(nick) { SameIsFolded(nick, nicks[j]); }
  }

  lemma OnlyOne(nicks: seq<Text>, nick: Text, y: nat)
    requires Unique(nicks) && y < |nicks| && Same(nick, nicks[y])
    ensures Where(nicks, nick) == y
  {
    hide Cmp, Folded, Where;
    var k := Where(nicks, nick);
    SameIsFolded(nick, nicks[y]);
    SameIsFolded(nick, nicks[k]);
  }

  /** All the objects of a channel. */
  ghost function Footprint(c: Channel): set<object>
    reads c
  {
    {c, c.Hash} + set x | 0 <= x < |c.Users| :: c.Users[x]
  }

  /** A well-formed channel of these objects, whose users have these nicks. */
  ghost predicate Holds(c: Channel, f: set<object>, ns: seq<Text>)
    reads c, Footprint(c)
  {
    match c case _ => f == Footprint(c) && c.Valid() && Nicks(c.Users) == ns
  }

  /** These are its objects. */
  ghost predicate Owns(c: Channel, f: set<object>)
    reads c
  {
    Footprint(c) == f
  }

  ghost predicate Hold(chs: seq<Channel>, fs: seq<set<object>>, ns: seq<seq<Text>>)
    reads chs, Union(fs)
  {
    match chs
    case _ =>
      && |fs| == |ns| == |chs|
      && (forall i :: 0 <= i < |chs| ==> Owns(chs[i], fs[i]) && Holds(chs[i], fs[i], ns[i]))
  }

  function Union(fs: seq<set<object>>): set<object> {
    set i, o | 0 <= i < |fs| && o in fs[i] :: o
  }

  /** Channels share no object. */
  predicate Disjoint(fs: seq<set<object>>) {
    match fs case _ => forall i, j :: 0 <= i < |fs| && 0 <= j < |fs| && i != j ==> fs[i] !! fs[j]
  }

  /** `UpdateChanuserNick`: a user is renamed in every channel that it is on. */
  method UpdateChanuserNick(chs: seq<Channel>, onick: Text, nnick: Text, ghost fs: seq<set<object>>, ghost ns: seq<seq<Text>>)
    returns (ghost ms: seq<seq<Text>>)
    requires |nnick| < MAXNICKLEN && Disjoint(fs) && Hold(chs, fs, ns)
    requires forall i :: 0 <= i < |ns| ==> Unclaimed(ns[i], onick, nnick)
    modifies Union(fs)
    ensures Hold(chs, fs, ms)
    ensures |ms| == |ns| && forall i :: 0 <= i < |ns| ==> ms[i] == Renamed(ns[i], onick, nnick)
    ensures forall i :: 0 <= i < |ns| ==> Happened(ns[i], Nick(onick, nnick), ms[i])
  {
    hide Unclaimed, Renamed, Disjoint, Hold, Union, Happened;
    HoldSize(chs, fs, ns);
    ms := ns;
    for n := 0 to |chs|
      invariant Hold(chs, fs, ms) && |ms| == |ns|
      invariant forall i :: 0 <= i < n ==> ms[i] == Renamed(ns[i], onick, nnick) && Happened(ns[i], Nick(onick, nnick), ms[i])
      invariant forall i :: n <= i < |chs| ==> ms[i] == ns[i]
    {
      RenameIn(chs, n, onick, nnick, fs, ms);
      ms := ms[n := Renamed(ms[n], onick, nnick)];
    }
  }

  lemma HoldSize(chs: seq<Channel>, fs: seq<set<object>>, ns: seq<seq<Text>>)
    requires Hold(chs, fs, ns)
    ensures |fs| == |ns| == |chs|
  {}

  /** The step in one channel leaves the other channels alone. */
  method RenameIn(chs: seq<Channel>, n: nat, onick: Text, nnick: Text, ghost fs: seq<set<object>>, ghost ns: seq<seq<Text>>)
    requires n < |chs| && |nnick| < MAXNICKLEN && Disjoint(fs) && Hold(chs, fs, ns)
    requires Unclaimed(ns[n], onick, nnick)
    modifies Union(fs)
    ensures Hold(chs, fs, ns[n := Renamed(ns[n], onick, nnick)])
    ensures Happened(ns[n], Nick(onick, nnick), Renamed(ns[n], onick, nnick))
  {
    Snapshot(chs, fs, ns, n);
    hide Happened, Unclaimed, Renamed, Disjoint, Hold, Holds, Union, Footprint;
    RenameOne(chs[n], onick, nnick, fs[n], ns[n]);
    forall i | 0 <= i < |chs| && i != n ensures Owns(chs[i], fs[i]) && Holds(chs[i], fs[i], ns[i]) {}
    StillHold(chs, fs, ns, n, Renamed(ns[n], onick, nnick));
  }

  method RenameOne(c: Channel, onick: Text, nnick: Text, ghost f: set<object>, ghost ns: seq<Text>)
    requires Holds(c, f, ns) && |nnick| < MAXNICKLEN && Unclaimed(ns, onick, nnick)
    modifies f
    ensures Holds(c, f, Renamed(ns, onick, nnick)) && Owns(c, f)
    ensures Happened(ns, Nick(onick, nnick), Renamed(ns, onick, nnick))
  {
    hide Unclaimed, Renamed, FirstOf;
    c.UniqueNow();
    RenamedMeans(ns, onick, nnick);
    c.RenameUser(onick, nnick);
  }

  lemma Snapshot(chs: seq<Channel>, fs: seq<set<object>>, ns: seq<seq<Text>>, n: nat)
    requires Disjoint(fs) && Hold(chs, fs, ns) && n < |chs|
    ensures |fs| == |ns| == |chs| && fs[n] <= Union(fs)
    ensures forall i :: 0 <= i < |chs| ==> chs[i] in fs[i] && Footprint(chs[i]) == fs[i] && Holds(chs[i], fs[i], ns[i])
    ensures forall i :: 0 <= i < |chs| && i != n ==> fs[i] !! fs[n]
  {}

  lemma StillHold(chs: seq<Channel>, fs: seq<set<object>>, ns: seq<seq<Text>>, n: nat, m: seq<Text>)
    requires |fs| == |ns| == |chs| && n < |chs|
    requires forall i :: 0 <= i < |chs| && i != n ==> Owns(chs[i], fs[i]) && Holds(chs[i], fs[i], ns[i])
    requires Owns(chs[n], fs[n]) && Holds(chs[n], fs[n], m)
    ensures Hold(chs, fs, ns[n := m])
  {}
}
