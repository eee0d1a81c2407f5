/** FbRef over whole runs: who holds which object, and what its count must be. */
module RefCounts {
  import opened Collections

  /** A smart pointer: destroyed, empty, or holding object `target`. */
  datatype Ref = Dead | Null | Holds(target: nat)

  /**
    `outside` are references owned by code that uses raw pointers, each good for one release. `faults` counts the calls
    of addRef or release that found an object already destroyed, that is, without a reference left.
   */
  datatype World = World(refs: seq<Ref>, counts: seq<int>, outside: seq<nat>, faults: nat)

  /** Pointers point to objects that exist. */
  ghost predicate Formed(w: World) {
    && |w.outside| == |w.counts|
    && forall l :: 0 <= l < |w.refs| && w.refs[l].Holds? ==> w.refs[l].target < |w.counts|
  }

  datatype Step =
    | Create                                // an object enters the world with one outside reference
    | OutsideAddRef(o: nat)
    | OutsideRelease(o: nat)
    | Adopt(o: nat)                         // FbRef{p}: the caller's reference moves into the pointer
    | Empty
    | CopyNew(r: nat)
    | MoveNew(r: nat)
    | CopyAssign(l: nat, r: nat)
    | MoveAssign(l: nat, r: nat)
    | Reset(l: nat, p: Option<nat>)         // the caller's reference to p, if any, is handed over
    | Destroy(l: nat)

  predicate Live(w: World, l: nat) { l < |w.refs| && !w.refs[l].Dead? }

  predicate Owned(w: World, o: nat) { o < |w.outside| && w.outside[o] > 0 }

  predicate Enabled(w: World, step: Step) {
    match step
    case Create => true
    case OutsideAddRef(o) => Owned(w, o)
    case OutsideRelease(o) => Owned(w, o)
    case Adopt(o) => Owned(w, o)
    case Empty => true
    case CopyNew(r) => Live(w, r)
    case MoveNew(r) => Live(w, r)
    case CopyAssign(l, r) => Live(w, l) && Live(w, r)
    case MoveAssign(l, r) => Live(w, l) && Live(w, r)
    case Reset(l, p) => Live(w, l) && (p.Some? ==> Owned(w, p.value))
    case Destroy(l) => Live(w, l)
  }

  /** References to `o` held by smart pointers. */
  function Held(refs: seq<Ref>, o: nat): nat {
    if refs == [] then 0 else Held(refs[..|refs| - 1], o) + if refs[|refs| - 1] == Holds(o) then 1 else 0
  }

  lemma HeldSnoc(refs: seq<Ref>, r: Ref, o: nat)
    ensures Held(refs + [r], o) == Held(refs, o) + if r == Holds(o) then 1 else 0
  {
    assert (refs + [r])[..|refs|] == refs;
  }

  lemma {:induction false} HeldUpdate(refs: seq<Ref>, l: nat, r: Ref, o: nat)
    requires l < |refs|
    ensures Held(refs[l := r], o) + (if refs[l] == Holds(o) then 1 else 0)
         == Held(refs, o) + if r == Holds(o) then 1 else 0
  {
    var n := |refs| - 1;
    if l < n {
      assert refs[l := r][..n] == refs[..n][l := r];
      HeldUpdate(refs[..n], l, r, o);
    } else {
      assert refs[l := r][..n] == refs[..n];
    }
  }

  lemma {:induction false} HolderExists(refs: seq<Ref>, o: nat)
    ensures Held(refs, o) > 0 <==> Holds(o) in refs
  {
    if refs != [] {
      HolderExists(refs[..|refs| - 1], o);
      assert refs == refs[..|refs| - 1] + [refs[|refs| - 1]];
    }
  }

  // ---------------------------------------------------------------- the operations

  /** addRef (`change` is 1) or release (`change` is -1), if there is an object. */
  function Call(w: World, r: Ref, change: int): World
    requires r.Holds? ==> r.target < |w.counts|
  {
    if !r.Holds? then w
    else
      w.(counts := w.counts[r.target := w.counts[r.target] + change],
         faults := w.faults + if w.counts[r.target] > 0 then 0 else 1)
  }

  /** `assign`: the new target is counted before the old one is released; nothing happens when they are the same. */
  function DoAssign(w: World, l: nat, p: Ref, addRef: bool): World
    requires Live(w, l)
    requires p.Holds? ==> p.target < |w.counts|
    requires w.refs[l].Holds? ==> w.refs[l].target < |w.counts|
  {
    var was := w.refs[l];
    if was == p then w
    else
      var counted := if addRef then Call(w, p, 1) else w;
      Call(counted.(refs := w.refs[l := p]), was, -1)
  }

  function DoMoveAssign(w: World, l: nat, r: nat): World
    requires Live(w, l) && Live(w, r)
    requires w.refs[l].Holds? ==> w.refs[l].target < |w.counts|
  {
    if w.refs[l] == w.refs[r] then w
    else
      var released := if w.refs[l].Holds? then DoAssign(w, l, Null, false) else w;
      released.(refs := released.refs[l := w.refs[r]][r := Null])
  }

  /** The caller gives up the reference it owned. */
  function HandOver(w: World, o: nat): World
    requires Owned(w, o)
  {
    w.(outside := w.outside[o := w.outside[o] - 1])
  }

  function DoReset(w: World, l: nat, p: Option<nat>): World
    requires Live(w, l) && |w.outside| == |w.counts| && (p.Some? ==> Owned(w, p.value))
    requires w.refs[l].Holds? ==> w.refs[l].target < |w.counts|
  {
    match p
    case None => DoAssign(w, l, Null, false)
    case Some(o) => DoAssign(HandOver(w, o), l, Holds(o), false)
  }

  function DoCopyNew(w: World, r: nat): World
    requires Live(w, r) && (w.refs[r].Holds? ==> w.refs[r].target < |w.counts|)
  {
    DoAssign(w.(refs := w.refs + [Null]), |w.refs|, w.refs[r], true)
  }

  function DoMoveNew(w: World, r: nat): World
    requires Live(w, r)
  {
    w.(refs := w.refs[r := Null] + [w.refs[r]])
  }

  function DoAdopt(w: World, o: nat): World
    requires Owned(w, o)
  {
    HandOver(w, o).(refs := w.refs + [Holds(o)])
  }

  function DoDestroy(w: World, l: nat): World
    requires Live(w, l) && (w.refs[l].Holds? ==> w.refs[l].target < |w.counts|)
  {
    Call(w.(refs := w.refs[l := Dead]), w.refs[l], -1)
  }

  function DoOutside(w: World, step: Step): World
    requires Enabled(w, step) && |w.outside| == |w.counts|
    requires step.Create? || step.OutsideAddRef? || step.OutsideRelease?
  {
    match step
    case Create => w.(counts := w.counts + [1], outside := w.outside + [1])
    case OutsideAddRef(o) => Call(w.(outside := w.outside[o := w.outside[o] + 1]), Holds(o), 1)
    case OutsideRelease(o) => Call(HandOver(w, o), Holds(o), -1)
  }

  ghost function Apply(w: World, step: Step): World
    requires Enabled(w, step) && Formed(w)
  {
    match step
    case Adopt(o) => DoAdopt(w, o)
    case Empty => w.(refs := w.refs + [Null])
    case CopyNew(r) => DoCopyNew(w, r)
    case MoveNew(r) => DoMoveNew(w, r)
    case CopyAssign(l, r) => DoAssign(w, l, w.refs[r], true)
    case MoveAssign(l, r) => DoMoveAssign(w, l, r)
    case Reset(l, p) => DoReset(w, l, p)
    case Destroy(l) => DoDestroy(w, l)
    case _ => DoOutside(w, step)
  }

  // ---------------------------------------------------------------- bookkeeping

  /** References to `o` that are counted but that nobody holds any more. */
  function Excess(w: World, o: nat): int
    requires |w.outside| == |w.counts|
  {
    if o < |w.counts| then w.counts[o] - w.outside[o] - Held(w.refs, o) else 0 - Held(w.refs, o)
  }

  /** `reset(p)` of a pointer that already holds `p`: the caller's reference is neither stored nor released. */
  predicate SelfReset(w: World, step: Step, o: nat) {
    step.Reset? && Live(w, step.l) && step.p == Some(o) && w.refs[step.l] == Holds(o)
  }

  function LeakedBy(w: World, step: Step, o: nat): nat { if SelfReset(w, step, o) then 1 else 0 }

  lemma AssignExcess(w: World, l: nat, p: Ref, addRef: bool, o: nat)
    requires Formed(w) && Live(w, l) && !p.Dead? && (p.Holds? ==> p.target < |w.counts|)
    ensures var v := DoAssign(w, l, p, addRef);
            && Formed(v) && |v.refs| == |w.refs|
            && Excess(v, o) == Excess(w, o) - if !addRef && p == Holds(o) && w.refs[l] != p then 1 else 0
  {
    HeldUpdate(w.refs, l, p, o);
  }

  lemma OutsideExcess(w: World, step: Step, o: nat)
    requires Formed(w) && Enabled(w, step)
    requires step.Create? || step.OutsideAddRef? || step.OutsideRelease?
    ensures Formed(DoOutside(w, step))
    ensures Held(w.refs, |w.counts|) == 0 ==> Excess(DoOutside(w, step), o) == Excess(w, o)
  {
  }

  lemma MoveAssignExcess(w: World, l: nat, r: nat, o: nat)
    requires Formed(w) && Live(w, l) && Live(w, r)
    ensures Formed(DoMoveAssign(w, l, r)) && Excess(DoMoveAssign(w, l, r), o) == Excess(w, o)
  {
    if w.refs[l] != w.refs[r] {
      AssignExcess(w, l, Null, false, o);
      var released := if w.refs[l].Holds? then DoAssign(w, l, Null, false) else w;
      HeldUpdate(released.refs, l, w.refs[r], o);
      HeldUpdate(released.refs[l := w.refs[r]], r, Null, o);
    }
  }

  lemma CopyNewExcess(w: World, r: nat, o: nat)
    requires Formed(w) && Live(w, r)
    ensures Formed(DoCopyNew(w, r)) && Excess(DoCopyNew(w, r), o) == Excess(w, o)
  {
    HeldSnoc(w.refs, Null, o);
    AssignExcess(w.(refs := w.refs + [Null]), |w.refs|, w.refs[r], true, o);
  }

  lemma MoveNewExcess(w: World, r: nat, o: nat)
    requires Formed(w) && Live(w, r)
    ensures Formed(DoMoveNew(w, r)) && Excess(DoMoveNew(w, r), o) == Excess(w, o)
  {
    HeldUpdate(w.refs, r, Null, o);
    HeldSnoc(w.refs[r := Null], w.refs[r], o);
  }

  lemma AdoptExcess(w: World, p: nat, o: nat)
    requires Formed(w) && Owned(w, p)
    ensures Formed(DoAdopt(w, p)) && Excess(DoAdopt(w, p), o) == Excess(w, o)
  {
    HeldSnoc(w.refs, Holds(p), o);
  }

  lemma ResetExcess(w: World, l: nat, p: Option<nat>, o: nat)
    requires Formed(w) && Enabled(w, Reset(l, p))
    ensures Formed(DoReset(w, l, p)) && Excess(DoReset(w, l, p), o) == Excess(w, o) + LeakedBy(w, Reset(l, p), o)
  {
    match p
    case None => AssignExcess(w, l, Null, false, o);
    case Some(q) => AssignExcess(HandOver(w, q), l, Holds(q), false, o);
  }

  /** No object is pointed to before it exists. */
  lemma {:induction false} NoneHeldYet(w: World, refs: seq<Ref>, o: nat)
    requires |w.counts| <= o && forall l :: 0 <= l < |refs| && refs[l].Holds? ==> refs[l].target < |w.counts|
    ensures Held(refs, o) == 0
  {
    HolderExists(refs, o);
  }

  /** One step changes the excess only by a self-reset, and then by one. */
  lemma StepExcess(w: World, step: Step, o: nat)
    requires Formed(w) && Enabled(w, step)
    ensures Formed(Apply(w, step)) && Excess(Apply(w, step), o) == Excess(w, o) + LeakedBy(w, step, o)
  {
    match step
    case Adopt(p) => AdoptExcess(w, p, o);
    case Empty => HeldSnoc(w.refs, Null, o);
    case CopyNew(r) => CopyNewExcess(w, r, o);
    case MoveNew(r) => MoveNewExcess(w, r, o);
    case CopyAssign(l, r) => AssignExcess(w, l, w.refs[r], true, o);
    case MoveAssign(l, r) => MoveAssignExcess(w, l, r, o);
    case Reset(l, p) => ResetExcess(w, l, p, o);
    case Destroy(l) => HeldUpdate(w.refs, l, Dead, o);
    case _ =>
      NoneHeldYet(w, w.refs, |w.counts|);
      OutsideExcess(w, step, o);
  }

  // ---------------------------------------------------------------- nothing destroyed is touched

  /** What is not to happen: adding a reference to an object without one, or releasing it, is a fault. */
  lemma DestroyedIsFault(w: World, l: nat)
    requires Formed(w) && Live(w, l) && w.refs[l].Holds?
    ensures Apply(w, CopyNew(l)).faults == Apply(w, Destroy(l)).faults
         == w.faults + if w.counts[w.refs[l].target] > 0 then 0 else 1
  {
  }

  ghost predicate Covered(w: World) {
    |w.outside| == |w.counts| && forall o: nat :: Excess(w, o) >= 0
  }

  lemma ReferencedIsAlive(w: World, o: nat)
    requires Covered(w) && o < |w.counts| && (w.outside[o] > 0 || Holds(o) in w.refs)
    ensures w.counts[o] > 0
  {
    HolderExists(w.refs, o);
    assert Excess(w, o) >= 0;
  }

  lemma StepTouchesLive(w: World, step: Step)
    requires Formed(w) && Enabled(w, step) && Covered(w)
    ensures Apply(w, step).faults == w.faults
  {
    forall o: nat | o < |w.counts| && (w.outside[o] > 0 || Holds(o) in w.refs) ensures w.counts[o] > 0 {
      ReferencedIsAlive(w, o);
    }
    match step
    case MoveAssign(l, r) =>
      assert w.refs[l] in w.refs;
    case CopyAssign(l, r) =>
      assert w.refs[l] in w.refs && w.refs[r] in w.refs;
    case CopyNew(r) =>
      assert w.refs[r] in w.refs;
    case Destroy(l) =>
      assert w.refs[l] in w.refs;
    case Reset(l, p) =>
      assert w.refs[l] in w.refs;
    case _ =>
  }

  // ---------------------------------------------------------------- runs

  ghost predicate Follows(w: World, steps: seq<Step>, t: World)
    decreases |steps|
  {
    if steps == [] then w == t
    else Formed(w) && Enabled(w, steps[0]) && Follows(Apply(w, steps[0]), steps[1..], t)
  }

  /** Self-resets of `o` along a run. */
  ghost function Leaks(w: World, steps: seq<Step>, o: nat): nat
    decreases |steps|
  {
    if steps == [] || !Formed(w) || !Enabled(w, steps[0]) then 0
    else LeakedBy(w, steps[0], o) + Leaks(Apply(w, steps[0]), steps[1..], o)
  }

  const NOTHING: World := World([], [], [], 0)

  lemma {:induction false} RunAccounts(w: World, steps: seq<Step>, t: World, o: nat)
    requires Formed(w) && Follows(w, steps, t)
    ensures Formed(t) && Excess(t, o) == Excess(w, o) + Leaks(w, steps, o)
    decreases |steps|
  {
    if steps != [] {
      StepExcess(w, steps[0], o);
      RunAccounts(Apply(w, steps[0]), steps[1..], t, o);
    }
  }

  lemma {:induction false} RunTouchesLive(w: World, steps: seq<Step>, t: World)
    requires Formed(w) && Covered(w) && Follows(w, steps, t)
    ensures Formed(t) && Covered(t) && t.faults == w.faults
    decreases |steps|
  {
    if steps != [] {
      forall o: nat ensures Formed(Apply(w, steps[0])) && Excess(Apply(w, steps[0]), o) >= 0 {
        StepExcess(w, steps[0], o);
        assert Excess(w, o) >= 0;
      }
      StepTouchesLive(w, steps[0]);
      RunTouchesLive(Apply(w, steps[0]), steps[1..], t);
    }
  }

  /**
    Conservation: after any run every object's count is the number of pointers holding it, plus the outside
    references, plus one for each time a pointer holding it was reset to it. No call ever reaches a destroyed object,
    and an object that is held or owned outside has not been destroyed.
   */
  lemma ReferencesConserved(steps: seq<Step>, t: World)
    requires Follows(NOTHING, steps, t)
    ensures Formed(t) && t.faults == 0
    ensures forall o: nat :: o < |t.counts| ==> t.counts[o] == Held(t.refs, o) + t.outside[o] + Leaks(NOTHING, steps, o)
    ensures forall o: nat :: o < |t.counts| && (Holds(o) in t.refs || t.outside[o] > 0) ==> t.counts[o] > 0
  {
    RunTouchesLive(NOTHING, steps, t);
    forall o: nat | o < |t.counts|
      ensures t.counts[o] == Held(t.refs, o) + t.outside[o] + Leaks(NOTHING, steps, o)
      ensures Holds(o) in t.refs || t.outside[o] > 0 ==> t.counts[o] > 0
    {
      RunAccounts(NOTHING, steps, t, o);
      HolderExists(t.refs, o);
    }
  }

  /** Some step of the run resets a pointer that holds `o` to `o`. */
  ghost predicate HasSelfReset(w: World, steps: seq<Step>, o: nat)
    decreases |steps|
  {
    && steps != [] && Formed(w) && Enabled(w, steps[0])
    && (SelfReset(w, steps[0], o) || HasSelfReset(Apply(w, steps[0]), steps[1..], o))
  }

  lemma {:induction false} LeaksCountSelfResets(w: World, steps: seq<Step>, o: nat)
    ensures Leaks(w, steps, o) > 0 <==> HasSelfReset(w, steps, o)
    decreases |steps|
  {
    if steps != [] && Formed(w) && Enabled(w, steps[0]) {
      LeaksCountSelfResets(Apply(w, steps[0]), steps[1..], o);
    }
  }

  /**
    An object that nobody holds or owns any more has been destroyed, its count being zero, exactly when no pointer
    was ever reset to the object it already held.
   */
  lemma DestroyedUnlessSelfReset(steps: seq<Step>, t: World, o: nat)
    requires Follows(NOTHING, steps, t) && o < |t.counts| && |t.outside| == |t.counts|
    requires Holds(o) !in t.refs && t.outside[o] == 0
    ensures t.counts[o] == 0 <==> !HasSelfReset(NOTHING, steps, o)
  {
    ReferencesConserved(steps, t);
    HolderExists(t.refs, o);
    LeaksCountSelfResets(NOTHING, steps, o);
  }

  lemma FollowsCons(w: World, step: Step, u: World, rest: seq<Step>, t: World)
    requires Formed(w) && Enabled(w, step) && Apply(w, step) == u && Follows(u, rest, t)
    ensures Follows(w, [step] + rest, t)
  {
    assert ([step] + rest)[1..] == rest;
  }

  /** Such a leak is real: adopt, take a second reference, reset to the same object, destroy. */
  lemma SelfResetLeaks() returns (steps: seq<Step>, t: World)
    ensures Follows(NOTHING, steps, t)
    ensures t.refs == [Dead] && t.outside == [0] && t.counts == [1]
  {
    var held := World([Holds(0)], [2], [1], 0);
    steps, t := ResetThenDestroy(held);
    var w2 := World([], [2], [2], 0);
    FollowsCons(w2, Adopt(0), held, steps, t);
    steps := OwnTwice([Adopt(0)] + steps, t);
  }

  lemma OwnTwice(rest: seq<Step>, t: World) returns (steps: seq<Step>)
    requires Follows(World([], [2], [2], 0), rest, t)
    ensures Follows(NOTHING, steps, t)
  {
    var w1, w2 := World([], [1], [1], 0), World([], [2], [2], 0);
    FollowsCons(w1, OutsideAddRef(0), w2, rest, t);
    FollowsCons(NOTHING, Create, w1, [OutsideAddRef(0)] + rest, t);
    steps := [Create] + ([OutsideAddRef(0)] + rest);
  }

  lemma ResetThenDestroy(held: World) returns (steps: seq<Step>, t: World)
    requires held == World([Holds(0)], [2], [1], 0)
    ensures Follows(held, steps, t) && t == World([Dead], [1], [0], 0)
  {
    t := World([Dead], [1], [0], 0);
    var reset := World([Holds(0)], [2], [0], 0);
    FollowsCons(reset, Destroy(0), t, [], t);
    steps := [Destroy(0)] + [];
    FollowsCons(held, Reset(0, Some(0)), reset, steps, t);
    steps := [Reset(0, Some(0))] + steps;
  }
}
