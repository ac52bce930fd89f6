/** How open channels get their ids, src/chanrec.c. */
module ChannelIds {
  import opened CString
  import opened List

  const IDS := 10               // `id_hash` has places 0 to 10, and 0 is no id
  const MAXCHANLEN := 150

  class Channel {
    var channel: Text
    var id: nat

    constructor (channel: Text)
      ensures this.channel == channel && id == 0
    {
      this.channel, id := channel, 0;
    }
  }

  // --------------------------------------------------- ids by themselves

  predicate Distinct(ids: seq<nat>) {
    match ids case _ => forall i, j :: 0 <= i < j < |ids| ==> ids[i] != ids[j]
  }

  predicate InRange(ids: seq<nat>) {
    match ids case _ => forall i :: 0 <= i < |ids| ==> 1 <= ids[i] <= IDS
  }

  /** v is the smallest id from 1 on that is not in use. */
  predicate SmallestFree(ids: seq<nat>, v: nat) {
    v >= 1 && v !in ids && forall u :: 1 <= u < v ==> u in ids
  }

  function Range(n: nat): (s: set<nat>)
    ensures |s| == n && forall u :: u in s <==> 1 <= u <= n
  {
    if n == 0 then {} else Range(n - 1) + {n}
  }

  function Used(ids: seq<nat>): (s: set<nat>)
    ensures forall u :: u in s <==> u in ids
  {
    if ids == [] then {} else Used(ids[..|ids| - 1]) + {ids[|ids| - 1]}
  }

  lemma {:induction false} DistinctFill(ids: seq<nat>)
    requires Distinct(ids)
    ensures |Used(ids)| == |ids|
  {
    if ids != [] {
      var n := |ids| - 1;
      DistinctFill(ids[..n]);
      assert ids[n] !in ids[..n];
    }
  }

  lemma {:induction false} SubsetSize(a: set<nat>, b: set<nat>)
    requires a <= b
    ensures |a| <= |b| && (|a| == |b| ==> a == b)
  {
    if a == {} {
    } else {
      var x :| x in a;
      SubsetSize(a - {x}, b - {x});
    }
  }

  /** The smallest free id fits the table exactly when fewer than ten channels are
      open: among ids 1 to 10 that are all different, ten use up the range and
      nine cannot. */
  lemma Pigeonhole(ids: seq<nat>, v: nat)
    requires Distinct(ids) && InRange(ids) && SmallestFree(ids, v)
    ensures v <= IDS <==> |ids| < IDS
  {
    hide Distinct, Used, Range;
    var used := Used(ids);
    DistinctFill(ids);
    assert used <= Range(IDS);
    SubsetSize(used, Range(IDS));
    if v > IDS {
      assert Range(IDS) <= used;
      SubsetSize(Range(IDS), used);
    } else {
      assert v in Range(IDS) && v !in used;
    }
  }

  // ------------------------------------------------------------ the program

  ghost function Ids(cs: seq<Channel>): (ids: seq<nat>)
    reads cs`id
    ensures |ids| == |cs| && forall i :: 0 <= i < |cs| ==> ids[i] == cs[i].id
  {
    if cs == [] then [] else Ids(cs[..|cs| - 1]) + [cs[|cs| - 1].id]
  }

  lemma {:induction false} IdsAre(cs: seq<Channel>, ids: seq<nat>)
    requires |cs| == |ids| && forall i :: 0 <= i < |cs| ==> cs[i].id == ids[i]
    ensures Ids(cs) == ids
  {}

  /** The first channel of that name, or the length of the list. */
  ghost function Where(cs: seq<Channel>, name: Text): (k: nat)
    reads cs`channel
    ensures k <= |cs| && (k < |cs| ==> Same(cs[k].channel, name)) && forall j :: 0 <= j < k ==> !Same(cs[j].channel, name)
  {
    if cs == [] then 0
    else
      var k := Where(cs[..|cs| - 1], name);
      if k < |cs| - 1 then k else if Same(cs[|cs| - 1].channel, name) then |cs| - 1 else |cs|
  }

  class ChannelsTable {
    var list: seq<Channel>                  // from head to tail
    const id_hash: array<Channel?>

    /** Ids are different and in range, and `id_hash` is the way back from them. */
    ghost predicate Valid()
      reads this, id_hash, list
    {
      && id_hash.Length == IDS + 1
      && (forall i, j :: 0 <= i < j < |list| ==> list[i] != list[j])
      && Distinct(Ids(list)) && InRange(Ids(list)) && Mirrors(id_hash, list)
    }

    constructor ()
      ensures Valid() && list == [] && fresh(id_hash)
    {
      list := [];
      id_hash := new Channel?[IDS + 1](_ => null);
    }

    /** `AddChannel` */
    method AddChannel(channel: Text) returns (chptr: Channel)
      requires Valid() && |list| < IDS && |channel| < MAXCHANLEN
      modifies this, id_hash
      ensures Valid() && fresh(chptr) && list == old(list) + [chptr] && chptr.channel == channel
      ensures SmallestFree(old(Ids(list)), chptr.id) && 1 <= chptr.id <= IDS
      ensures id_hash[chptr.id] == chptr
    {
      hide Distinct, InRange, Mirrors, Ids, SmallestFree;
      chptr := new Channel(channel);
      var i := FirstFree();
      Pigeonhole(Ids(list), i);
      FreeIsFree(Ids(list), i);
      Enter(chptr, i);
    }

    /** The channel comes last on the list, under the id i. */
    method Enter(chptr: Channel, i: nat)
      requires Valid() && chptr !in list && 1 <= i <= IDS && i !in Ids(list)
      modifies this`list, id_hash, chptr`id
      ensures Valid() && list == old(list) + [chptr] && chptr.id == i && id_hash[i] == chptr
    {
      hide Distinct, InRange, Mirrors, Ids, Follows;
      Snapshot(id_hash, list);
      ghost var was, ids, cs := id_hash[..], Ids(list), list;
      chptr.id := i;
      id_hash[i] := chptr;
      MirrorMore(was, id_hash, cs, chptr);
      list := list + [chptr];
      IdsMore(cs, chptr);
      OneMoreId(ids, i);
    }

    /** The marks in `k`, and the search among them. */
    method FirstFree() returns (i: nat)
      requires Valid()
      ensures SmallestFree(Ids(list), i)
    {
      hide Distinct, Mirrors, Ids;
      ghost var ids := Ids(list);
      var k := new bool[IDS + 2](_ => false);
      k[0] := true;                                  // the new channel, still without an id
      for n := 0 to |list|
        invariant forall v :: 1 <= v < k.Length ==> (k[v] <==> v in ids[..n])
        invariant fresh(k)
      {
        assert ids[..n + 1] == ids[..n] + [list[n].id];
        k[list[n].id] := true;
      }
      assert ids[..|list|] == ids;
      i := 1;
      while k[i]
        invariant 1 <= i <= IDS + 1 && forall u :: 1 <= u < i ==> k[u]
        decreases IDS + 1 - i
      {
        assert k[i] ==> i in ids;
        i := i + 1;
      }
    }

    /** `RemovefromChannelsTable` */
    method RemovefromChannelsTable(channel: Text) returns (r: bool)
      requires Valid()
      modifies this, id_hash
      ensures Valid()
      ensures var k := Where(old(list), channel);
        && r == (k < |old(list)|)
        && list == (if r then Dropped(old(list), k) else old(list))
        && (r ==> id_hash[old(list)[k].id] == null)
    {
      hide Cmp, Distinct, InRange, Mirrors, Ids, Dropped, Where;
      var k := Find(channel);
      if k == |list| { return false; }
      ghost var cs := list;
      var chptr := list[k];
      Mirrored(id_hash, cs, k);
      list := Dropped(list, k);
      id_hash[chptr.id] := null;
      MirrorLess(old(id_hash[..]), id_hash, cs, k);
      IdsLess(cs, k);
      OneLessId(Ids(cs), k);
      r := true;
    }

    method Find(channel: Text) returns (k: nat)
      ensures k == Where(list, channel)
    {
      hide Cmp;
      k := 0;
      while k < |list| && !Same(list[k].channel, channel)
        invariant 0 <= k <= |list| && forall j :: 0 <= j < k ==> !Same(list[j].channel, channel)
      {
        k := k + 1;
      }
      WhereIs(list, channel, k);
    }
  }

  lemma FreeIsFree(ids: seq<nat>, v: nat)
    requires SmallestFree(ids, v)
    ensures v >= 1 && v !in ids
  {}

  lemma IdsMore(cs: seq<Channel>, c: Channel)
    ensures Ids(cs + [c]) == Ids(cs) + [c.id]
  {
    assert (cs + [c])[..|cs|] == cs;
  }

  lemma IdsLess(cs: seq<Channel>, k: nat)
    requires k < |cs|
    ensures Ids(Dropped(cs, k)) == Dropped(Ids(cs), k)
  {
    hide Dropped;
    forall i | 0 <= i < |cs| - 1 ensures Dropped(cs, k)[i].id == Dropped(Ids(cs), k)[i] {
      assert Dropped(cs, k)[i] == cs[if i < k then i else i + 1];
    }
    IdsAre(Dropped(cs, k), Dropped(Ids(cs), k));
  }

  lemma OneLessId(ids: seq<nat>, k: nat)
    requires Distinct(ids) && InRange(ids) && k < |ids|
    ensures Distinct(Dropped(ids, k)) && InRange(Dropped(ids, k))
  {
    hide Dropped;
    var d := Dropped(ids, k);
    forall i, j | 0 <= i < j < |d| ensures d[i] != d[j] {
      assert d[i] == ids[if i < k then i else i + 1] && d[j] == ids[if j < k then j else j + 1];
    }
    forall i | 0 <= i < |d| ensures 1 <= d[i] <= IDS { assert d[i] == ids[if i < k then i else i + 1]; }
  }

  lemma Mirrored(id_hash: array<Channel?>, cs: seq<Channel>, k: nat)
    requires id_hash.Length == IDS + 1 && Mirrors(id_hash, cs) && k < |cs|
    ensures cs[k].id <= IDS && id_hash[cs[k].id] == cs[k] && Follows(id_hash[..], cs)
  {}

  /** `Mirrors`, for the table's contents at some moment. */
  ghost predicate Follows(was: seq<Channel?>, cs: seq<Channel>)
    requires |was| == IDS + 1
    reads cs`id
  {
    match cs
    case _ =>
      && (forall n :: 0 <= n < |cs| ==> cs[n].id <= IDS && was[cs[n].id] == cs[n])
      && (forall i :: 0 <= i <= IDS && was[i] != null ==> was[i] in cs && was[i].id == i)
  }

  lemma Snapshot(id_hash: array<Channel?>, cs: seq<Channel>)
    requires id_hash.Length == IDS + 1 && Mirrors(id_hash, cs)
    ensures Follows(id_hash[..], cs)
  {}

  lemma MirrorMore(was: seq<Channel?>, id_hash: array<Channel?>, cs: seq<Channel>, c: Channel)
    requires id_hash.Length == |was| == IDS + 1 && Follows(was, cs) && c.id <= IDS && c.id !in Ids(cs)
    requires id_hash[..] == was[c.id := c]
    ensures Mirrors(id_hash, cs + [c])
  {
    forall n | 0 <= n < |cs| ensures cs[n].id != c.id { assert Ids(cs)[n] == cs[n].id; }
    var all := cs + [c];
    forall n | 0 <= n < |all| ensures all[n].id <= IDS && id_hash[..][all[n].id] == all[n] {}
    forall i | 0 <= i <= IDS && id_hash[i] != null ensures id_hash[..][i] in all && id_hash[i].id == i {}
  }

  lemma MirrorLess(was: seq<Channel?>, id_hash: array<Channel?>, cs: seq<Channel>, k: nat)
    requires id_hash.Length == |was| == IDS + 1 && Follows(was, cs) && k < |cs| && Distinct(Ids(cs))
    requires cs[k].id <= IDS && id_hash[..] == was[cs[k].id := null]
    ensures Mirrors(id_hash, Dropped(cs, k))
  {
    hide Dropped;
    var d := Dropped(cs, k);
    forall n | 0 <= n < |d| ensures d[n].id <= IDS && id_hash[..][d[n].id] == d[n] {
      var x := if n < k then n else n + 1;
      assert d[n] == cs[x] && Ids(cs)[x] != Ids(cs)[k];
    }
    forall i | 0 <= i <= IDS && id_hash[..][i] != null ensures id_hash[i] in d && id_hash[i].id == i {
      StillThere(was, cs, k, i);
    }
  }

  lemma StillThere(was: seq<Channel?>, cs: seq<Channel>, k: nat, i: nat)
    requires |was| == IDS + 1 && Follows(was, cs) && k < |cs| && i <= IDS && was[i] != null && i != cs[k].id
    ensures was[i] in Dropped(cs, k) && was[i].id == i
  {
    hide Dropped;
    var x :| 0 <= x < |cs| && cs[x] == was[i];
    assert Dropped(cs, k)[if x < k then x else x - 1] == cs[x];
  }

  /** `id_hash[i]` is a channel just when that channel is on the list with id i. */
  ghost predicate Mirrors(id_hash: array<Channel?>, cs: seq<Channel>)
    requires id_hash.Length == IDS + 1
    reads id_hash, cs`id
  {
    match cs
    case _ =>
      && (forall n :: 0 <= n < |cs| ==> cs[n].id <= IDS && id_hash[cs[n].id] == cs[n])
      && (forall i :: 0 <= i <= IDS && id_hash[i] != null ==> id_hash[i] in cs && id_hash[i].id == i)
  }

  lemma OneMoreId(ids: seq<nat>, i: nat)
    requires Distinct(ids) && InRange(ids) && i !in ids && 1 <= i <= IDS
    ensures Distinct(ids + [i]) && InRange(ids + [i])
  {}

  lemma {:induction false} WhereIs(cs: seq<Channel>, name: Text, k: nat)
    requires k <= |cs| && (k < |cs| ==> Same(cs[k].channel, name)) && forall j :: 0 <= j < k ==> !Same(cs[j].channel, name)
    ensures Where(cs, name) == k
  {}
}
