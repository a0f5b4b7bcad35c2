/** Fixed tables with first-free allocation and linear search by handle: the connection registry
    `s_conns` of `al1_ble.c` and the reassembler slots `s_slots` of the bridge have this shape. */
module SlotTable {
  import opened SessionPolicy

  datatype Entry<T> = Entry(inUse: bool, handle: Handle, body: T)

  /** Index of the first entry not in use, or the table size. */
  function FirstFree<T>(t: seq<Entry<T>>): (i: nat)
    ensures i <= |t| && (i < |t| ==> !t[i].inUse)
    ensures forall j :: 0 <= j < i ==> t[j].inUse
  {
    if t == [] || !t[0].inUse then 0 else FirstFree(t[1..]) + 1
  }

  /** Index of the first entry in use for `h`, or the table size. */
  function Find<T>(t: seq<Entry<T>>, h: Handle): (i: nat)
    ensures i <= |t| && (i < |t| ==> t[i].inUse && t[i].handle == h)
    ensures forall j :: 0 <= j < i ==> !(t[j].inUse && t[j].handle == h)
  {
    if t == [] || (t[0].inUse && t[0].handle == h) then 0 else Find(t[1..], h) + 1
  }

  function Add<T>(t: seq<Entry<T>>, h: Handle, body: T): seq<Entry<T>>
  {
    var i := FirstFree(t);
    if i < |t| then t[i := Entry(true, h, body)] else t
  }

  function Remove<T>(t: seq<Entry<T>>, h: Handle): seq<Entry<T>>
  {
    var i := Find(t, h);
    if i < |t| then t[i := t[i].(inUse := false)] else t
  }

  ghost predicate Unique<T>(t: seq<Entry<T>>)
  {
    forall i, j :: 0 <= i < j < |t| && t[i].inUse && t[j].inUse ==> t[i].handle != t[j].handle
  }

  function Tracked<T>(t: seq<Entry<T>>): set<Handle>
  {
    set i | 0 <= i < |t| && t[i].inUse :: t[i].handle
  }

  /** The handles in use, in table order. */
  function Handles<T>(t: seq<Entry<T>>): seq<Handle>
  {
    if t == [] then [] else (if t[0].inUse then [t[0].handle] else []) + Handles(t[1..])
  }

  lemma {:induction false} HandlesAreTracked<T>(t: seq<Entry<T>>)
    ensures forall h :: h in Handles(t) <==> h in Tracked(t)
  {
    if t != [] {
      HandlesAreTracked(t[1..]);
      TrackedCons(t);
    }
  }

  lemma TrackedCons<T>(t: seq<Entry<T>>)
    requires t != []
    ensures Tracked(t) == (if t[0].inUse then {t[0].handle} else {}) + Tracked(t[1..])
  {
    forall h | h in Tracked(t)
      ensures h in (if t[0].inUse then {t[0].handle} else {}) + Tracked(t[1..])
    {
      var i :| 0 <= i < |t| && t[i].inUse && t[i].handle == h;
      if i > 0 {
        assert t[1..][i - 1] == t[i];
      }
    }
    forall h | h in Tracked(t[1..])
      ensures h in Tracked(t)
    {
      var i :| 0 <= i < |t[1..]| && t[1..][i].inUse && t[1..][i].handle == h;
      assert t[i + 1] == t[1..][i];
    }
  }

  ghost predicate NoRepeats(hs: seq<Handle>)
  {
    forall i, j :: 0 <= i < j < |hs| ==> hs[i] != hs[j]
  }

  /** A table without duplicates lists every tracked handle exactly once. */
  lemma {:induction false} HandlesDistinct<T>(t: seq<Entry<T>>)
    requires Unique(t)
    ensures NoRepeats(Handles(t))
  {
    if t != [] {
      var u := t[1..];
      assert forall i :: 0 <= i < |u| ==> u[i] == t[i + 1];
      HandlesDistinct(u);
      HandlesAreTracked(u);
      if t[0].inUse {
        assert t[0].handle !in Tracked(u);
        assert Handles(t) == [t[0].handle] + Handles(u);
      } else {
        assert Handles(t) == Handles(u);
      }
    }
  }

  lemma {:induction false} TrackedCount<T>(t: seq<Entry<T>>)
    requires Unique(t)
    ensures |Tracked(t)| <= |t|
    ensures |Tracked(t)| == |t| <==> FirstFree(t) == |t|
  {
    if t != [] {
      var u := t[1..];
      assert forall i :: 0 <= i < |u| ==> u[i] == t[i + 1];
      TrackedCount(u);
      TrackedCons(t);
      if t[0].inUse {
        assert t[0].handle !in Tracked(u);
      }
    }
  }

  lemma TrackedFind<T>(t: seq<Entry<T>>, h: Handle)
    ensures h in Tracked(t) <==> Find(t, h) < |t|
  {
    if h in Tracked(t) {
      var i :| 0 <= i < |t| && t[i].inUse && t[i].handle == h;
      assert t[i].inUse && t[i].handle == h;
    }
  }

  lemma AddTracked<T>(t: seq<Entry<T>>, h: Handle, body: T)
    requires Unique(t) && h !in Tracked(t)
    ensures Unique(Add(t, h, body)) && |Add(t, h, body)| == |t|
    ensures Tracked(Add(t, h, body)) == if |Tracked(t)| < |t| then Tracked(t) + {h} else Tracked(t)
  {
    TrackedCount(t);
    var i, u := FirstFree(t), Add(t, h, body);
    if i < |t| {
      assert u[i].handle == h;
      forall g | g in Tracked(t)
        ensures g in Tracked(u)
      {
        var j :| 0 <= j < |t| && t[j].inUse && t[j].handle == g;
        assert u[j] == t[j];
      }
    }
  }

  lemma RemoveTracked<T>(t: seq<Entry<T>>, h: Handle)
    requires Unique(t)
    ensures Unique(Remove(t, h)) && |Remove(t, h)| == |t|
    ensures Tracked(Remove(t, h)) == Tracked(t) - {h}
  {
    TrackedFind(t, h);
    var i, u := Find(t, h), Remove(t, h);
    if i < |t| {
      forall g | g in Tracked(t) && g != h
        ensures g in Tracked(u)
      {
        var j :| 0 <= j < |t| && t[j].inUse && t[j].handle == g;
        assert u[j] == t[j];
      }
    }
  }

  /** Two tables with the same entries in use, index by index. */
  ghost predicate Coupled<T, U>(t: seq<Entry<T>>, u: seq<Entry<U>>)
  {
    && |t| == |u|
    && forall i :: 0 <= i < |t| ==> t[i].inUse == u[i].inUse && (t[i].inUse ==> t[i].handle == u[i].handle)
  }

  lemma CoupledSearch<T, U>(t: seq<Entry<T>>, u: seq<Entry<U>>, h: Handle)
    requires Coupled(t, u)
    ensures FirstFree(t) == FirstFree(u) && Find(t, h) == Find(u, h)
  {
    var i, j := FirstFree(t), FirstFree(u);
    var m, n := Find(t, h), Find(u, h);
  }

  lemma {:induction false} CoupledHandles<T, U>(t: seq<Entry<T>>, u: seq<Entry<U>>)
    requires Coupled(t, u)
    ensures Handles(t) == Handles(u)
  {
    if t != [] {
      CoupledHandles(t[1..], u[1..]);
    }
  }

  lemma CoupledKept<T, U>(t: seq<Entry<T>>, u: seq<Entry<U>>, h: Handle, x: T, y: U)
    requires Coupled(t, u)
    ensures Coupled(Add(t, h, x), Add(u, h, y))
    ensures Coupled(Remove(t, h), Remove(u, h))
  {
    CoupledSearch(t, u, h);
  }
}
