/** The preferences of src/prefs.c: a binary search tree ordered by name without
    regard to case. */
module Prefs {
  import opened CString

  datatype Option<T> = None | Some(value: T)

  datatype Level = Boolean | Digits | Other

  datatype Pref = Pref(name: Text, value: Option<Text>, level: Level)

  datatype Tree = Leaf | Node(left: Tree, entry: Pref, right: Tree)

  const ON: Text := [0x4F, 0x4E]
  const OFF: Text := [0x4F, 0x46, 0x46]

  predicate IsDigits(s: Text) {
    forall i :: 0 <= i < |s| ==> 0x30 <= s[i] <= 0x39
  }

  /** In the order in which they are listed and saved. */
  function Inorder(t: Tree): seq<Pref> {
    match t
    case Leaf => []
    case Node(l, e, r) => Inorder(l) + [e] + Inorder(r)
  }

  /** Every name on the left is smaller, every name on the right greater. */
  predicate Ordered(t: Tree) {
    match t
    case Leaf => true
    case Node(l, e, r) =>
      && Ordered(l) && Ordered(r)
      && (forall p :: p in Inorder(l) ==> Cmp(p.name, e.name) < 0)
      && (forall p :: p in Inorder(r) ==> Cmp(e.name, p.name) < 0)
  }

  /** The descent of `FindEntry`. */
  function Find(t: Tree, key: Text): Option<Pref> {
    match t
    case Leaf => None
    case Node(l, e, r) =>
      if Cmp(key, e.name) == 0 then Some(e) else if Cmp(key, e.name) < 0 then Find(l, key) else Find(r, key)
  }

  /** The descent of `AddtoPrefsTable`, for a name that is not in the tree. */
  function Inserted(t: Tree, p: Pref): Tree {
    match t
    case Leaf => Node(Leaf, p, Leaf)
    case Node(l, e, r) => if Cmp(p.name, e.name) < 0 then Node(Inserted(l, p), e, r) else Node(l, e, Inserted(r, p))
  }

  /** The tree with a new value in the entry called key. */
  function Put(t: Tree, key: Text, value: Text): Tree {
    match t
    case Leaf => Leaf
    case Node(l, e, r) =>
      if Cmp(key, e.name) == 0 then Node(l, e.(value := Some(value)), r)
      else if Cmp(key, e.name) < 0 then Node(Put(l, key, value), e, r)
      else Node(l, e, Put(r, key, value))
  }

  /** The search finds an entry exactly when it is somewhere in the tree. */
  lemma {:induction false} FindIsMember(t: Tree, key: Text)
    requires Ordered(t)
    ensures Find(t, key).Some? ==> Find(t, key).value in Inorder(t) && Same(key, Find(t, key).value.name)
    ensures forall p :: p in Inorder(t) && Same(key, p.name) ==> Find(t, key) == Some(p)
  {
    match t
    case Leaf =>
    case Node(l, e, r) =>
      FindIsMember(l, key);
      FindIsMember(r, key);
      forall p | p in Inorder(l) && Same(key, p.name) ensures Cmp(key, e.name) < 0 { Trans(key, p.name, e.name); }
      forall p | p in Inorder(r) && Same(key, p.name) ensures Cmp(key, e.name) > 0 {
        Anti(key, p.name);
        Trans(e.name, p.name, key);
        Anti(key, e.name);
      }
  }

  lemma {:induction false} InsertedMembers(t: Tree, p: Pref)
    ensures forall q :: q in Inorder(Inserted(t, p)) <==> q == p || q in Inorder(t)
  {
    match t
    case Leaf =>
    case Node(l, e, r) => InsertedMembers(l, p); InsertedMembers(r, p);
  }

  lemma {:induction false} InsertedOrdered(t: Tree, p: Pref)
    requires Ordered(t) && Find(t, p.name) == None
    ensures Ordered(Inserted(t, p))
  {
    match t
    case Leaf =>
    case Node(l, e, r) =>
      Anti(p.name, e.name);
      if Cmp(p.name, e.name) < 0 {
        InsertedOrdered(l, p);
        InsertedMembers(l, p);
      } else {
        InsertedOrdered(r, p);
        InsertedMembers(r, p);
      }
  }

  lemma SameCmp(a: Text, b: Text, c: Text)
    requires Same(a, b)
    ensures Cmp(a, c) == Cmp(b, c)
  {
    Anti(a, b);
    Trans(a, b, c);
    Trans(b, a, c);
  }

  /** Setting a value changes what is found under that name and nothing else. */
  lemma {:induction false} FindPut(t: Tree, key: Text, value: Text, other: Text)
    ensures Find(Put(t, key, value), other) ==
            if Same(key, other) && Find(t, key).Some? then Some(Find(t, key).value.(value := Some(value))) else Find(t, other)
  {
    match t
    case Leaf =>
    case Node(l, e, r) =>
      if Same(key, other) {
        SameCmp(key, other, e.name);
      } else if Cmp(key, e.name) == 0 == Cmp(other, e.name) {
        Anti(other, e.name);
        Trans(key, e.name, other);
        Trans(other, e.name, key);
        Anti(key, e.name);
        Anti(key, other);
      }
      if Cmp(key, e.name) < 0 { FindPut(l, key, value, other); }
      else if Cmp(key, e.name) > 0 { FindPut(r, key, value, other); }
  }

  lemma {:induction false} PutNames(t: Tree, key: Text, value: Text)
    ensures |Inorder(Put(t, key, value))| == |Inorder(t)|
    ensures forall i :: 0 <= i < |Inorder(t)| ==> Inorder(Put(t, key, value))[i].name == Inorder(t)[i].name
  {
    match t
    case Leaf =>
    case Node(l, e, r) => PutNames(l, key, value); PutNames(r, key, value);
  }

  lemma {:induction false} PutOrdered(t: Tree, key: Text, value: Text)
    requires Ordered(t)
    ensures Ordered(Put(t, key, value))
  {
    match t
    case Leaf =>
    case Node(l, e, r) =>
      PutOrdered(l, key, value);
      PutOrdered(r, key, value);
      PutNames(l, key, value);
      PutNames(r, key, value);
      forall p | p in Inorder(Put(l, key, value)) ensures Cmp(p.name, e.name) < 0 {
        var i :| 0 <= i < |Inorder(Put(l, key, value))| && Inorder(Put(l, key, value))[i] == p;
        assert Inorder(l)[i] in Inorder(l);
      }
      forall p | p in Inorder(Put(r, key, value)) ensures Cmp(e.name, p.name) < 0 {
        var i :| 0 <= i < |Inorder(Put(r, key, value))| && Inorder(Put(r, key, value))[i] == p;
        assert Inorder(r)[i] in Inorder(r);
      }
  }

  /** The listing is in strict order of the names. */
  lemma {:induction false} InorderSorted(t: Tree)
    requires Ordered(t)
    ensures forall i, j :: 0 <= i < j < |Inorder(t)| ==> Cmp(Inorder(t)[i].name, Inorder(t)[j].name) < 0
  {
    hide Cmp;
    match t
    case Leaf =>
    case Node(l, e, r) =>
      InorderSorted(l);
      InorderSorted(r);
      var a, b := Inorder(l), Inorder(r);
      forall i, j | 0 <= i < j < |Inorder(t)| ensures Cmp(Inorder(t)[i].name, Inorder(t)[j].name) < 0 {
        if i < |a| { assert a[i] in a; }
        if j > |a| { assert b[j - |a| - 1] in b; }
        if i < |a| < j { Trans(a[i].name, e.name, b[j - |a| - 1].name); }
      }
  }

  // ----------------------------------------------------------- the program

  /** The value that `SetPref` accepts for a level. */
  predicate Fits(level: Level, value: Text) {
    match level
    case Digits => IsDigits(value)
    case Boolean => Same(value, ON) || Same(value, OFF)
    case Other => true
  }

  /** What `SetPref` makes of the tree.  A value that differs from the old one
      in case alone is not stored. */
  function Set(t: Tree, pref: Text, nvalue: Text): Tree {
    match Find(t, pref)
    case None => t
    case Some(e) =>
      if !Fits(e.level, nvalue) || (e.value.Some? && Same(e.value.value, nvalue)) then t else Put(t, pref, nvalue)
  }

  /** What is found afterwards. */
  lemma SetFinds(t: Tree, pref: Text, nvalue: Text, key: Text)
    ensures !Same(pref, key) ==> Find(Set(t, pref, nvalue), key) == Find(t, key)
    ensures Same(pref, key) && Find(t, pref).Some? && Fits(Find(t, pref).value.level, nvalue) ==>
      var e := Find(Set(t, pref, nvalue), key);
      e.Some? && e.value.name == Find(t, pref).value.name && e.value.value.Some? && Same(e.value.value.value, nvalue)
    ensures Ordered(t) ==> Ordered(Set(t, pref, nvalue))
  {
    hide Cmp, Fits;
    FindPut(t, pref, nvalue, key);
    SameSelf(nvalue);
    if Ordered(t) { PutOrdered(t, pref, nvalue); }
    if Same(pref, key) { SameFind(t, pref, key); }
  }

  lemma {:induction false} SameFind(t: Tree, a: Text, b: Text)
    requires Same(a, b)
    ensures Find(t, a) == Find(t, b)
  {
    match t
    case Leaf =>
    case Node(l, e, r) => SameCmp(a, b, e.name); SameFind(l, a, b); SameFind(r, a, b);
  }

  class Preferences {
    var root: Tree

    constructor ()
      ensures root == Leaf
    {
      root := Leaf;
    }

    /** `FindEntry` */
    method FindEntry(key: Text) returns (e: Option<Pref>)
      ensures e == Find(root, key)
    {
      var aux := root;
      e := None;
      while aux.Node?
        invariant e == None && Find(root, key) == Find(aux, key)
        decreases aux
      {
        var r := Cmp(key, aux.entry.name);
        if r == 0 {
          return Some(aux.entry);
        } else if r < 0 {
          aux := aux.left;
        } else {
          aux := aux.right;
        }
      }
    }

    /** `SetPref` */
    method SetPref(pref: Text, nvalue: Text) returns (r: int)
      modifies this
      ensures root == Set(old(root), pref, nvalue)
      ensures old(Ordered(root)) ==> Ordered(root)
      ensures r == -1 <==>
                var e := Find(old(root), pref);
                e.Some? && e.value.level == Digits && exists i :: 0 <= i < |nvalue| && !(0x30 <= nvalue[i] <= 0x39)
      ensures r == -2 <==>
                var e := Find(old(root), pref);
                e.Some? && e.value.level == Boolean && !Same(nvalue, [0x4F, 0x4E]) && !Same(nvalue, [0x4F, 0x46, 0x46])
      ensures r == 1 ==> Find(root, pref).Some? && Find(root, pref).value.value == Some(nvalue)
      ensures r <= 0 ==> root == old(root)
      ensures r == 0 <==>
                Find(old(root), pref) == None ||
                (var e := Find(old(root), pref).value; Fits(e.level, nvalue) && e.value.Some? && Same(e.value.value, nvalue))
      ensures -2 <= r <= 1
    {
      hide Cmp, Ordered;
      SetFinds(root, pref, nvalue, pref);
      FindPut(root, pref, nvalue, pref);
      SameSelf(pref);
      var e := FindEntry(pref);
      if e == None { return 0; }
      if e.value.level == Digits {
        if !IsDigits(nvalue) { return -1; }
      } else if e.value.level == Boolean {
        if !Same(nvalue, ON) && !Same(nvalue, OFF) { return -2; }
      }
      if e.value.value.Some? && Same(e.value.value.value, nvalue) { return 0; }
      root := Put(root, pref, nvalue);
      r := 1;
    }

    /** `AddtoPrefsTable`; a name that is already there would keep it looping. */
    method AddtoPrefsTable(p: Pref)
      requires Ordered(root) && Find(root, p.name) == None
      modifies this
      ensures root == Inserted(old(root), p)
      ensures Ordered(root) && forall q :: q in Inorder(root) <==> q == p || q in old(Inorder(root))
    {
      hide Cmp, Ordered;
      InsertedOrdered(root, p);
      InsertedMembers(root, p);
      var aux, path := root, [];
      while aux.Node?
        invariant Find(aux, p.name) == None
        invariant Around(path, Inserted(aux, p)) == Inserted(root, p)
        decreases aux
      {
        if Cmp(p.name, aux.entry.name) < 0 {
          path := path + [WentLeft(aux.entry, aux.right)];
          aux := aux.left;
        } else {
          path := path + [WentRight(aux.left, aux.entry)];
          aux := aux.right;
        }
        assert path[..|path| - 1] + [path[|path| - 1]] == path;
      }
      root := Around(path, Node(Leaf, p, Leaf));
    }
  }

  /** A step of a descent, with what it leaves aside. */
  datatype Turn = WentLeft(entry: Pref, right: Tree) | WentRight(left: Tree, entry: Pref)

  /** The tree in which the descent has ended at t. */
  function Around(path: seq<Turn>, t: Tree): Tree {
    if path == [] then t
    else
      var rest := path[..|path| - 1];
      match path[|path| - 1]
      case WentLeft(e, r) => Around(rest, Node(t, e, r))
      case WentRight(l, e) => Around(rest, Node(l, e, t))
  }
}
