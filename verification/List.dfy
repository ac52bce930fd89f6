/** The singly linked lists of src/list.c. */
module List {

  class ListEntry<T> {
    var whatever: T
    var next: ListEntry?<T>

    constructor (whatever: T)
      ensures this.whatever == whatever && next == null
    {
      this.whatever := whatever;
      next := null;
    }
  }

  /** s without its element k. */
  function Dropped<X>(s: seq<X>, k: nat): (d: seq<X>)
    requires k < |s|
    ensures |d| == |s| - 1 && forall i :: 0 <= i < |d| ==> d[i] == s[if i < k then i else i + 1]
  {
    s[..k] + s[k + 1..]
  }

  class List<T> {
    var nEntries: int
    var head: ListEntry?<T>
    var tail: ListEntry?<T>          // means nothing while the list is empty
    ghost var Nodes: seq<ListEntry<T>>

    ghost predicate Valid()
      reads this, Nodes
    {
      && nEntries == |Nodes|
      && (forall i, j :: 0 <= i < j < |Nodes| ==> Nodes[i] != Nodes[j])
      && (forall i :: 0 <= i < |Nodes| - 1 ==> Nodes[i].next == Nodes[i + 1])
      && (if Nodes == [] then head == null
          else head == Nodes[0] && tail == Nodes[|Nodes| - 1] && Nodes[|Nodes| - 1].next == null)
    }

    ghost function Contents(): (s: seq<T>)
      reads this, Nodes
      ensures |s| == |Nodes| && forall i :: 0 <= i < |s| ==> s[i] == Nodes[i].whatever
    {
      seq(|Nodes|, i requires 0 <= i < |Nodes| reads this, Nodes => Nodes[i].whatever)
    }

    constructor ()
      ensures Valid() && Contents() == []
    {
      nEntries, head, tail, Nodes := 0, null, null, [];
    }

    /** `AddtoList`, with the assignment to `whatever` that follows every call. */
    method AddtoList(x: T) returns (lptr: ListEntry<T>)
      requires Valid()
      modifies this, Nodes
      ensures Valid() && fresh(lptr) && Nodes == old(Nodes) + [lptr]
      ensures Contents() == old(Contents()) + [x]
    {
      lptr := new ListEntry(x);
      if nEntries != 0 {
        tail.next := lptr;
        tail := lptr;
      } else {
        head, tail := lptr, lptr;
      }
      nEntries := nEntries + 1;
      Nodes := Nodes + [lptr];
    }

    /** `RemovefromList`.  Taking out the only entry leaves `tail` as it is. */
    method RemovefromList(eptr: ListEntry<T>) returns (found: bool, ghost k: nat)
      requires Valid()
      modifies this, Nodes
      ensures Valid() && found == (eptr in old(Nodes))
      ensures !found ==> Nodes == old(Nodes) && Contents() == old(Contents())
      ensures found ==> k < old(|Nodes|) && old(Nodes)[k] == eptr && Nodes == Dropped(old(Nodes), k)
      ensures found ==> Contents() == Dropped(old(Contents()), k)
    {
      var prev: ListEntry?<T> := null;
      var lptr := head;
      found, k := false, 0;
      while lptr != null && !found
        invariant 0 <= k <= |Nodes| && eptr !in Nodes[..k]
        invariant lptr == if k < |Nodes| then Nodes[k] else null
        invariant prev == if k == 0 then null else Nodes[k - 1]
        invariant found ==> k < |Nodes| && lptr == eptr
        decreases |Nodes| - k, !found
      {
        if lptr == eptr {
          found := true;
        } else {
          prev := lptr;
          lptr := lptr.next;
          k := k + 1;
        }
      }
      if found { Unlink(prev, lptr, k); }
    }

    method Unlink(prev: ListEntry?<T>, lptr: ListEntry<T>, ghost k: nat)
      requires Valid() && k < |Nodes| && lptr == Nodes[k] && prev == if k == 0 then null else Nodes[k - 1]
      modifies this, Nodes
      ensures Valid() && Nodes == Dropped(old(Nodes), k)
      ensures Contents() == Dropped(old(Contents()), k)
    {
      hide Dropped;
      assert lptr.next == if k + 1 < |Nodes| then Nodes[k + 1] else null;
      if prev == null {
        head := lptr.next;
      } else if lptr.next == null {
        tail := prev;
        tail.next := null;
      } else {
        prev.next := lptr.next;
      }
      nEntries := nEntries - 1;
      Nodes := Dropped(Nodes, k);
      assert Nodes != [] ==> Nodes[|Nodes| - 1] == old(Nodes)[if |Nodes| - 1 < k then |Nodes| - 1 else |Nodes|];
    }
  }
}
