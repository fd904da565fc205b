/**
 * `HandleManager<T>` of ECS/HandleManager.h: a table of (generation, object
 * pointer) slots. `GetHandle` hands out the index of the first slot that is
 * empty or already holds the object, appending a slot when there is none;
 * `GetObject` reads a slot back.
 *
 * An object pointer is an `Option<T>`, `None` standing for `nullptr`, the
 * mark of an empty slot. `Handle<T>` is declared in ECS/Handle.h, which is not
 * part of this model: a handle here is the pair of index and generation that
 * `GetHandle` passes to its constructor.
 */
module HandleManagers {
  import opened Wrappers
  import opened UInt32

  /** One entry of `m_HandleSpace`: the generation and the object pointer. */
  datatype Slot<T> = Slot(generation: u32, item: Option<T>)

  datatype Handle = Handle(id: nat, generation: u32)

  /** The handle `GetHandle` returns and the table it leaves behind. */
  datatype Lookup<T> = Lookup(handle: Handle, space: seq<Slot<T>>)

  /** The first index at or after `i` whose slot is empty or holds `o`; `|s|` if there is none. */
  function FirstFreeFrom<T(==)>(s: seq<Slot<T>>, o: Option<T>, i: nat): (f: nat)
    requires i <= |s|
    ensures i <= f <= |s|
    ensures forall k :: i <= k < f ==> s[k].item.Some? && s[k].item != o
    ensures f < |s| ==> s[f].item == None || s[f].item == o
    decreases |s| - i
  {
    if i == |s| then i
    else if s[i].item == None || s[i].item == o then i
    else FirstFreeFrom(s, o, i + 1)
  }

  /** The index the scan of `GetHandle` stops at. */
  function FirstFree<T(==)>(s: seq<Slot<T>>, o: Option<T>): (f: nat)
    ensures f <= |s|
    ensures forall k :: 0 <= k < f ==> s[k].item.Some? && s[k].item != o
    ensures f < |s| ==> s[f].item == None || s[f].item == o
  {
    FirstFreeFrom(s, o, 0)
  }

  /** Any index before which no slot matches and at which the scan would stop is the first free one. */
  lemma FirstFreeIsLeast<T>(s: seq<Slot<T>>, o: Option<T>, i: nat)
    requires i <= |s|
    requires forall k :: 0 <= k < i ==> s[k].item.Some? && s[k].item != o
    requires i < |s| ==> s[i].item == None || s[i].item == o
    ensures FirstFree(s, o) == i
  {
  }

  /**
   * `GetHandle(o)`: the first slot that is empty takes `o` and keeps its
   * generation (line 23 assigns the generation to itself); the first slot
   * that already holds `o` is returned as it is; without either, `(0, o)` is
   * appended.
   */
  function GetHandleState<T(==)>(s: seq<Slot<T>>, o: Option<T>): (r: Lookup<T>)
    // `GetObject(GetHandle(o)) == o`
    ensures r.handle.id < |r.space| && r.space[r.handle.id].item == o
    ensures r.handle.generation == r.space[r.handle.id].generation
    // the handle is the first slot that is empty or holds `o`
    ensures r.handle.id == FirstFree(s, o)
    // the table grows only when no slot is empty or holds `o`, and then by the single entry `(0, o)`
    ensures r.handle.id < |s| ==> |r.space| == |s|
    ensures r.handle.id == |s| ==> r.space == s + [Slot(0, o)]
    // no generation changes and no other slot changes
    ensures forall k :: 0 <= k < |s| ==> r.space[k].generation == s[k].generation
    ensures forall k :: 0 <= k < |s| && k != r.handle.id ==> r.space[k] == s[k]
  {
    var i := FirstFree(s, o);
    if i == |s| then
      Lookup(Handle(i, 0), s + [Slot(0, o)])
    else if s[i].item == None then
      Lookup(Handle(i, s[i].generation), s[i := s[i].(item := o)])
    else
      Lookup(Handle(i, s[i].generation), s)
  }

  /** `GetSize` grows by one exactly when `GetHandle` appends, and otherwise stays. */
  lemma GetHandleSize<T>(s: seq<Slot<T>>, o: Option<T>)
    ensures var r := GetHandleState(s, o);
            && (|r.space| == |s| + 1 <==> forall k :: 0 <= k < |s| ==> s[k].item.Some? && s[k].item != o)
            && (|r.space| == |s| || |r.space| == |s| + 1)
  {
    var r := GetHandleState(s, o);
    if r.handle.id < |s| {
      assert !(s[r.handle.id].item.Some? && s[r.handle.id].item != o);
    }
  }

  /** A second `GetHandle` of the same object returns the same handle and leaves the table as it is. */
  lemma GetHandleIdempotent<T>(s: seq<Slot<T>>, o: Option<T>)
    ensures var r := GetHandleState(s, o);
            GetHandleState(r.space, o) == r
  {
    var r := GetHandleState(s, o);
    forall k | 0 <= k < r.handle.id
      ensures r.space[k].item.Some? && r.space[k].item != o
    {
      assert r.space[k] == s[k];
    }
    FirstFreeIsLeast(r.space, o, r.handle.id);
  }

  /**
   * The tables `GetHandle` builds from an empty one: every slot but the last
   * holds an object, and that object occurs in no later slot.
   */
  ghost predicate Reachable<T>(s: seq<Slot<T>>)
  {
    forall i, j :: 0 <= i < j < |s| ==> s[i].item.Some? && s[i].item != s[j].item
  }

  lemma ReachableAt<T>(s: seq<Slot<T>>, i: nat, j: nat)
    requires Reachable(s) && i < j < |s|
    ensures s[i].item.Some? && s[i].item != s[j].item
  {
  }

  lemma EmptyIsReachable<T>()
    ensures Reachable<T>([])
  {
  }

  /** `GetHandle` keeps a table reachable. */
  lemma GetHandlePreservesReachable<T>(s: seq<Slot<T>>, o: Option<T>)
    requires Reachable(s)
    ensures Reachable(GetHandleState(s, o).space)
  {
    var r := GetHandleState(s, o);
    var id := r.handle.id;
    if id == |s| {
      // every slot holds an object other than `o`, which goes at the end
      assert r.space == s + [Slot(0, o)];
      assert forall i :: 0 <= i < |s| ==> s[i].item.Some? && s[i].item != o;
    } else if s[id].item == None {
      // only the last slot of a reachable table can be empty
      if id + 1 < |s| {
        ReachableAt(s, id, id + 1);
      }
      assert r.space == s[id := Slot(s[id].generation, o)];
    } else {
      assert r.space == s;
    }
  }

  /** In a reachable table, `GetHandle` of an object already present returns its slot and changes nothing. */
  lemma GetHandleOfPresent<T>(s: seq<Slot<T>>, o: Option<T>, j: nat)
    requires Reachable(s) && j < |s| && s[j].item == o
    ensures GetHandleState(s, o) == Lookup(Handle(j, s[j].generation), s)
  {
    if o == None {
      assert s[j := s[j].(item := o)] == s;
    }
  }

  /** The handle table. */
  class HandleManager<T(==)> {
    var handleSpace: seq<Slot<T>>

    constructor ()
      ensures handleSpace == [] && Reachable(handleSpace)
    {
      handleSpace := [];
    }

    /** `GetHandle`: the scan over the table, then the write or the append. */
    method GetHandle(item: Option<T>) returns (h: Handle)
      modifies this
      ensures Lookup(h, handleSpace) == GetHandleState(old(handleSpace), item)
      ensures h.id < |handleSpace| && handleSpace[h.id].item == item
      ensures old(Reachable(handleSpace)) ==> Reachable(handleSpace)
    {
      ghost var s := handleSpace;
      if Reachable(s) {
        GetHandlePreservesReachable(s, item);
      }
      var i := 0;
      while i < |handleSpace|
        invariant i <= |handleSpace| && handleSpace == s
        invariant forall k :: 0 <= k < i ==> handleSpace[k].item.Some? && handleSpace[k].item != item
      {
        if handleSpace[i].item == None {
          FirstFreeIsLeast(s, item, i);
          handleSpace := handleSpace[i := handleSpace[i].(item := item)];
          handleSpace := handleSpace[i := handleSpace[i].(generation := handleSpace[i].generation)];
          return Handle(i, handleSpace[i].generation);
        } else if handleSpace[i].item == item {
          FirstFreeIsLeast(s, item, i);
          return Handle(i, handleSpace[i].generation);
        }
        i := i + 1;
      }
      FirstFreeIsLeast(s, item, i);
      handleSpace := handleSpace + [Slot(0, item)];
      return Handle(i, handleSpace[i].generation);
    }

    /** `GetObject`: the object in the handle's slot; the source does no bounds check. */
    method GetObject(handle: Handle) returns (o: Option<T>)
      requires handle.id < |handleSpace|
      ensures o == handleSpace[handle.id].item
    {
      o := handleSpace[handle.id].item;
    }

    method GetSize() returns (n: nat)
      ensures n == |handleSpace|
    {
      n := |handleSpace|;
    }
  }
}
