/** FbRef itself: a pointer field that adds and releases references as it changes. */
module SmartPtrs {
  import opened Collections
  import opened RefCounts

  /** A Firebird object behind addRef and release. */
  class Counted {
    var count: int

    constructor ()
      ensures count == 1
    {
      count := 1;
    }

    method AddRef()
      requires count > 0
      modifies this
      ensures count == old(count) + 1
    {
      count := count + 1;
    }

    method Release()
      requires count > 0
      modifies this
      ensures count == old(count) - 1
    {
      count := count - 1;
    }
  }

  /** The change of `t`'s count when a pointer gives up `was` and takes `now` with its own reference. */
  function Change(was: Counted?, now: Counted?, addRef: bool, t: Counted): int {
    if was == now then 0
    else (if addRef && now == t then 1 else 0) - if was == t then 1 else 0
  }

  class FbRef {
    var ptr: Counted?

    /** FbRef{p}: the caller's reference moves in. */
    constructor Adopt(p: Counted?)
      ensures ptr == p
    {
      ptr := p;
    }

    constructor Copy(r: FbRef)
      requires r.ptr != null ==> r.ptr.count > 0
      modifies r.ptr
      ensures ptr == r.ptr == old(r.ptr)
      ensures ptr != null ==> ptr.count == old(r.ptr.count) + 1
    {
      ptr := null;
      new;
      Assign(r.ptr, true);
    }

    constructor Move(r: FbRef)
      modifies r
      ensures ptr == old(r.ptr) && r.ptr == null
    {
      ptr := r.ptr;
      new;
      r.ptr := null;
    }

    /** The new target is counted before the old one is released, and neither when they are the same. */
    method Assign(p: Counted?, addRef: bool)
      requires ptr != p ==> (p != null && addRef ==> p.count > 0) && (ptr != null ==> ptr.count > 0)
      modifies this, ptr, p
      ensures ptr == p
      ensures p != null ==> p.count == old(p.count) + Change(old(ptr), p, addRef, p)
      ensures old(ptr) != null ==> old(ptr).count == old(ptr.count) + Change(old(ptr), p, addRef, old(ptr))
    {
      if ptr != p {
        if p != null && addRef {
          p.AddRef();
        }
        var tmp := ptr;
        ptr := p;
        if tmp != null {
          tmp.Release();
        }
      }
    }

    /** reset: takes over the caller's reference to `p`, unless `p` is what the pointer already holds. */
    method Reset(p: Counted?)
      requires ptr != p && ptr != null ==> ptr.count > 0
      modifies this, ptr, p
      ensures ptr == p
      ensures p != null ==> p.count == old(p.count)
      ensures old(ptr) != p && old(ptr) != null ==> old(ptr).count == old(ptr.count) - 1
    {
      Assign(p, false);
    }

    method CopyAssign(r: FbRef)
      requires ptr != r.ptr ==> (r.ptr != null ==> r.ptr.count > 0) && (ptr != null ==> ptr.count > 0)
      modifies this, ptr, r.ptr
      ensures ptr == r.ptr == old(r.ptr)
      ensures old(ptr) == ptr ==> (ptr != null ==> ptr.count == old(ptr.count))
      ensures old(ptr) != ptr && ptr != null ==> ptr.count == old(r.ptr.count) + 1
      ensures old(ptr) != ptr && old(ptr) != null ==> old(ptr).count == old(ptr.count) - 1
    {
      Assign(r.ptr, true);
    }

    /** Move assignment; from itself, or from a pointer to the same object, it does nothing. */
    method MoveAssign(r: FbRef)
      requires ptr != r.ptr && ptr != null ==> ptr.count > 0
      modifies this, r, ptr
      ensures ptr == old(r.ptr)
      ensures r.ptr == if old(ptr) == old(r.ptr) then old(r.ptr) else null
      ensures ptr != null ==> ptr.count == old(r.ptr.count)
      ensures old(ptr) != ptr && old(ptr) != null ==> old(ptr).count == old(ptr.count) - 1
    {
      if ptr != r.ptr {
        if ptr != null {
          Assign(null, false);
        }
        ptr := r.ptr;
        r.ptr := null;
      }
    }

    method Destroy()
      requires ptr != null ==> ptr.count > 0
      modifies ptr
      ensures ptr != null ==> ptr.count == old(ptr.count) - 1
    {
      if ptr != null {
        ptr.Release();
      }
    }
  }

  // ---------------------------------------------------------------- the objects as a World

  function TargetOf(r: Ref, objects: seq<Counted>): Counted?
    requires r.Holds? ==> r.target < |objects|
  {
    if r.Holds? then objects[r.target] else null
  }

  /** Pointers and objects of the heap are those of `w`, one for one. */
  ghost predicate Represents(w: World, refs: seq<FbRef>, objects: seq<Counted>)
    reads refs, objects
  {
    && Formed(w) && |refs| == |w.refs| && |objects| == |w.counts|
    && (forall i, j :: 0 <= i < j < |refs| ==> refs[i] != refs[j])
    && (forall i, j :: 0 <= i < j < |objects| ==> objects[i] != objects[j])
    && (forall i :: 0 <= i < |refs| && !w.refs[i].Dead? ==> refs[i].ptr == TargetOf(w.refs[i], objects))
    && (forall o :: 0 <= o < |objects| ==> objects[o].count == w.counts[o])
  }

  /** Copy assignment of two live pointers is the CopyAssign step. */
  method CopyAssignStep(ghost w: World, refs: seq<FbRef>, objects: seq<Counted>, l: nat, r: nat)
    requires Represents(w, refs, objects) && Covered(w) && Enabled(w, CopyAssign(l, r))
    modifies refs, objects
    ensures Represents(Apply(w, CopyAssign(l, r)), refs, objects)
  {
    HoldersAlive(w);
    refs[l].CopyAssign(refs[r]);
  }

  /** Move assignment of two live pointers is the MoveAssign step. */
  method MoveAssignStep(ghost w: World, refs: seq<FbRef>, objects: seq<Counted>, l: nat, r: nat)
    requires Represents(w, refs, objects) && Covered(w) && Enabled(w, MoveAssign(l, r))
    modifies refs, objects
    ensures Represents(Apply(w, MoveAssign(l, r)), refs, objects)
  {
    HoldersAlive(w);
    refs[l].MoveAssign(refs[r]);
  }

  /** reset of a live pointer is the Reset step. */
  method ResetStep(ghost w: World, refs: seq<FbRef>, objects: seq<Counted>, l: nat, p: Option<nat>)
    requires Represents(w, refs, objects) && Covered(w) && Enabled(w, Reset(l, p))
    modifies refs, objects
    ensures Represents(Apply(w, Reset(l, p)), refs, objects)
  {
    HoldersAlive(w);
    refs[l].Reset(if p.Some? then objects[p.value] else null);
  }

  /** Destruction of a live pointer is the Destroy step. */
  method DestroyStep(ghost w: World, refs: seq<FbRef>, objects: seq<Counted>, l: nat)
    requires Represents(w, refs, objects) && Covered(w) && Enabled(w, Destroy(l))
    modifies refs, objects
    ensures Represents(Apply(w, Destroy(l)), refs, objects)
  {
    HoldersAlive(w);
    refs[l].Destroy();
  }

  /** The copy constructor is the CopyNew step. */
  method CopyNewStep(ghost w: World, refs: seq<FbRef>, objects: seq<Counted>, r: nat) returns (now: seq<FbRef>)
    requires Represents(w, refs, objects) && Covered(w) && Enabled(w, CopyNew(r))
    modifies refs, objects
    ensures refs <= now && Represents(Apply(w, CopyNew(r)), now, objects)
  {
    HoldersAlive(w);
    var copy := new FbRef.Copy(refs[r]);
    now := refs + [copy];
  }

  /** The move constructor is the MoveNew step. */
  method MoveNewStep(ghost w: World, refs: seq<FbRef>, objects: seq<Counted>, r: nat) returns (now: seq<FbRef>)
    requires Represents(w, refs, objects) && Enabled(w, MoveNew(r))
    modifies refs, objects
    ensures refs <= now && Represents(Apply(w, MoveNew(r)), now, objects)
  {
    var moved := new FbRef.Move(refs[r]);
    now := refs + [moved];
  }

  lemma HoldersAlive(w: World)
    requires Formed(w) && Covered(w)
    ensures forall l :: 0 <= l < |w.refs| && w.refs[l].Holds? ==> w.counts[w.refs[l].target] > 0
  {
    forall l | 0 <= l < |w.refs| && w.refs[l].Holds? ensures w.counts[w.refs[l].target] > 0 {
      assert w.refs[l] in w.refs;
      ReferencedIsAlive(w, w.refs[l].target);
    }
  }
}
