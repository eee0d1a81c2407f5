/** DatabaseException: copying a status vector, linking it to the exception's own strings, and copying the exception. */
module DatabaseExceptions {
  import opened Collections
  import opened StatusVectors
  import opened StatusCopies

  /** extractSqlState: the first SQL state, found by stepping over arguments of either width. */
  method ExtractSqlState(statusVector: seq<Word>, mem: Memory) returns (state: string)
    requires Read(statusVector, 0, mem).Some?
    ensures state == FirstState(Read(statusVector, 0, mem).value)
    ensures IsSqlState(statusVector, 0, mem, state)
  {
    FirstStateIs(statusVector, 0, mem);
    var p := 0;
    while statusVector[p] != Num(ARG_END)
      invariant p < |statusVector| && Read(statusVector, p, mem).Some?
      invariant FirstState(Read(statusVector, 0, mem).value) == FirstState(Read(statusVector, p, mem).value)
      decreases |statusVector| - p
    {
      ghost var one := ReadOne(statusVector, p, mem).value;
      assert Read(statusVector, p, mem).value[1..] == Read(statusVector, one.1, mem).value;
      var argType := statusVector[p];
      p := p + 1;
      if argType == Num(ARG_SQL_STATE) {
        return CStr(Deref(statusVector[p], mem).value);
      }
      if argType == Num(ARG_CSTRING) {
        p := p + 2;
      } else {
        p := p + 1;
      }
    }
    state := "";
  }

  class DatabaseException {
    const id: nat       // tells its strings from those of other exceptions
    var errorVector: seq<Word>
    var errorStrings: seq<string>
    var sqlState: string

    /** Holds the arguments `args`, every string slot pointing into its own strings. */
    ghost predicate Carries(args: seq<Arg>)
      reads this
    {
      && errorVector == Linked(args, id) + [Num(ARG_END)]
      && errorStrings == Strings(args)
      && forall arg :: arg in args ==> Proper(arg)
    }

    ghost predicate Blank()
      reads this
    {
      errorVector == [] && errorStrings == []
    }

    /** From a status vector whose pointers reach `mem`; a null one leaves everything empty. */
    constructor (number: nat, statusVector: Option<seq<Word>>, mem: Memory)
      requires statusVector.Some? ==> Read(statusVector.value, 0, mem).Some?
      ensures id == number
      ensures statusVector.None? ==> Blank() && sqlState == ""
      ensures statusVector.Some? ==> Carries(Read(statusVector.value, 0, mem).value)
      ensures statusVector.Some? ==> sqlState == FirstState(Read(statusVector.value, 0, mem).value)
      ensures statusVector.Some? ==> IsSqlState(statusVector.value, 0, mem, sqlState)
      ensures statusVector.Some? ==> CopyOf(statusVector.value, mem, id, errorVector, errorStrings)
    {
      id := number;
      errorVector, errorStrings, sqlState := [], [], "";
      new;
      if statusVector.Some? {
        sqlState := ExtractSqlState(statusVector.value, mem);
        CopyErrorVector(statusVector.value, mem);
      }
    }

    /** The copy constructor: vector and strings are copied, then linked to the new strings. */
    constructor Copy(number: nat, other: DatabaseException, ghost args: seq<Arg>)
      requires other.Blank() || other.Carries(args)
      ensures id == number && sqlState == other.sqlState
      ensures other.Blank() ==> Blank()
      ensures other.Carries(args) ==> Carries(args)
    {
      id := number;
      errorVector, errorStrings, sqlState := other.errorVector, other.errorStrings, other.sqlState;
      new;
      ghost var was := errorVector;
      if other.Carries(args) {
        LinkedIsShaped(args, other.id);
      }
      FixupStringPointers(args);
      assert other.Blank() ==> was == [];
    }

    /** One turn of copyErrorVector: the argument becomes a pair; a text leaves a placeholder. */
    method CopyArgument(statusVector: seq<Word>, start: nat, mem: Memory, ghost done: seq<Arg>) returns (p: nat)
      requires start < |statusVector| && ReadOne(statusVector, start, mem).Some?
      requires Shaped(errorVector + [Num(ARG_END)], done) && errorStrings == Strings(done)
      modifies this`errorVector, this`errorStrings
      ensures var (arg, next) := ReadOne(statusVector, start, mem).value;
              && p == next && errorStrings == Strings(done + [arg])
              && Shaped(errorVector + [Num(ARG_END)], done + [arg])
      ensures p == start + if statusVector[start] == Num(ARG_CSTRING) then 3 else 2
      ensures !HasText(statusVector[start]) ==> errorStrings == old(errorStrings)
      ensures HasText(statusVector[start]) ==>
        exists text :: errorStrings == old(errorStrings) + [text] && TextAt(statusVector, start, mem, text)
    {
      ghost var arg := ReadOne(statusVector, start, mem).value.0;
      OneIsSaid(statusVector, start, mem);
      OneMoreArg(done, arg);
      ghost var before := errorVector;
      p := start;
      var argType := statusVector[p].value;
      p := p + 1;
      if argType == ARG_GDS || argType == ARG_NUMBER {
        errorVector := errorVector + [Num(argType), statusVector[p]];
        p := p + 1;
      } else if argType == ARG_STRING || argType == ARG_INTERPRETED || argType == ARG_SQL_STATE {
        errorStrings := errorStrings + [CStr(Deref(statusVector[p], mem).value)];
        errorVector := errorVector + [Num(argType), Num(0)];
        p := p + 1;
      } else if argType == ARG_CSTRING {
        var len := statusVector[p].value;
        var str := Deref(statusVector[p + 1], mem).value;
        p := p + 2;
        errorStrings := errorStrings + [str[..len]];
        errorVector := errorVector + [Num(ARG_STRING), Num(0)];
      } else {
        errorVector := errorVector + [Num(argType), statusVector[p]];
        p := p + 1;
      }
      OneMorePair(before, done, arg, errorVector[|before| + 1]);
    }

    /** Copies every argument up to the terminator, then links the placeholders. */
    method CopyErrorVector(statusVector: seq<Word>, mem: Memory)
      requires Blank() && Read(statusVector, 0, mem).Some?
      modifies this`errorVector, this`errorStrings
      ensures Carries(Read(statusVector, 0, mem).value)
      ensures CopyOf(statusVector, mem, id, errorVector, errorStrings)
    {
      ghost var done: seq<Arg> := [];
      var p := 0;
      while statusVector[p] != Num(ARG_END)
        invariant p < |statusVector| && Read(statusVector, p, mem).Some?
        invariant Read(statusVector, 0, mem).value == done + Read(statusVector, p, mem).value
        invariant Shaped(errorVector + [Num(ARG_END)], done) && errorStrings == Strings(done)
        decreases |statusVector| - p
      {
        ghost var one := ReadOne(statusVector, p, mem).value;
        ReadStep(statusVector, p, mem, done);
        p := CopyArgument(statusVector, p, mem, done);
        done := done + [one.0];
      }
      assert done + [] == done;
      errorVector := errorVector + [Num(ARG_END)];
      FixupStringPointers(done);
      LinkedIsCopy(statusVector, mem, id);
    }

    /** One turn of fixupStringPointers. */
    method LinkPair(i: nat, strIdx: nat, ghost args: seq<Arg>, ghost j: nat) returns (next: nat)
      requires j < |args| && i == 2 * j && Shaped(errorVector, args) && errorStrings == Strings(args)
      requires strIdx == |Strings(args[..j])| && errorVector[..i] == Linked(args[..j], id)
      modifies this`errorVector
      ensures Shaped(errorVector, args)
      ensures next == |Strings(args[..j + 1])| <= |errorStrings| && errorVector[..i + 2] == Linked(args[..j + 1], id)
    {
      next := strIdx;
      ghost var before := errorVector;
      LinkedPair(before, args, id, j);
      var argType := errorVector[i];
      if argType == Num(ARG_STRING) || argType == Num(ARG_INTERPRETED) || argType == Num(ARG_SQL_STATE) {
        errorVector := errorVector[i + 1 := Own(id, strIdx)];
        next := next + 1;
      }
    }

    /**
      Links every string slot to the exception's own strings, whatever the slots held; the string index ends at the
      number of strings.
     */
    method FixupStringPointers(ghost args: seq<Arg>)
      requires Blank() || (Shaped(errorVector, args) && errorStrings == Strings(args))
      modifies this`errorVector
      ensures old(Blank()) ==> Blank()
      ensures old(Shaped(errorVector, args)) && errorStrings == Strings(args) ==> Carries(args)
    {
      if errorVector == [] {
        return;
      }
      var strIdx, i := 0, 0;
      ghost var j := 0;
      while i < |errorVector| && errorVector[i] != Num(ARG_END)
        invariant 0 <= j <= |args| && i == 2 * j
        invariant Shaped(errorVector, args)
        invariant strIdx == |Strings(args[..j])| <= |errorStrings|
        invariant errorVector[..i] == Linked(args[..j], id)
        decreases |args| - j
      {
        assert j < |args|;
        strIdx := LinkPair(i, strIdx, args, j);
        i := i + 2;
        j := j + 1;
      }
      ShapeEnds(errorVector, args, j);
      assert strIdx == |errorStrings|;
    }
  }

  /** An argument read moves from the rest of the list to the part done. */
  lemma ReadStep(v: seq<Word>, p: nat, mem: Memory, done: seq<Arg>)
    requires p < |v| && Read(v, p, mem).Some? && v[p] != Num(ARG_END)
    ensures ReadOne(v, p, mem).Some?
    ensures var (arg, next) := ReadOne(v, p, mem).value;
            && next < |v| && Read(v, next, mem).Some?
            && done + Read(v, p, mem).value == (done + [arg]) + Read(v, next, mem).value
  {
    var one := ReadOne(v, p, mem).value;
    var rest := Read(v, one.1, mem).value;
    assert done + ([one.0] + rest) == (done + [one.0]) + rest;
  }

  lemma ShapeEnds(v: seq<Word>, args: seq<Arg>, j: nat)
    requires Shaped(v, args) && j <= |args| && v[2 * j] == Num(ARG_END)
    ensures j == |args| && args[..j] == args && v == v[..2 * j] + [Num(ARG_END)]
    ensures forall arg :: arg in args ==> Proper(arg)
  {
    assert forall k :: 0 <= k < |args| ==> Proper(args[k]) && v[2 * k] != Num(ARG_END);
  }

  lemma OneMorePair(v: seq<Word>, done: seq<Arg>, arg: Arg, w: Word)
    requires Shaped(v + [Num(ARG_END)], done) && Proper(arg) && (arg.Plain? ==> w == arg.word)
    ensures Shaped(v + [Num(arg.kind), w] + [Num(ARG_END)], done + [arg])
  {
    var longer := v + [Num(arg.kind), w] + [Num(ARG_END)];
    forall j | 0 <= j < |done|
      ensures longer[2 * j] == (v + [Num(ARG_END)])[2 * j] && longer[2 * j + 1] == (v + [Num(ARG_END)])[2 * j + 1]
    {
    }
  }

  /** Filling the slot of a text, and leaving that of any other argument, links one more pair. */
  lemma LinkedPair(v: seq<Word>, args: seq<Arg>, owner: nat, j: nat)
    requires Shaped(v, args) && j < |args| && v[..2 * j] == Linked(args[..j], owner)
    ensures var k := |Strings(args[..j])|;
            var linked := if args[j].Text? then v[2 * j + 1 := Own(owner, k)] else v;
            && (v[2 * j] in {Num(ARG_STRING), Num(ARG_INTERPRETED), Num(ARG_SQL_STATE)} <==> args[j].Text?)
            && Shaped(linked, args) && linked[..2 * j + 2] == Linked(args[..j + 1], owner)
            && |Strings(args[..j + 1])| == k + (if args[j].Text? then 1 else 0) <= |Strings(args)|
  {
    assert Proper(args[j]);
    assert args[..j + 1][..j] == args[..j];
    LinkedSlots(args, owner, j);
    SetSlot(v, 2 * j, if args[j].Text? then Own(owner, |Strings(args[..j])|) else v[2 * j + 1]);
  }

  lemma SetSlot(v: seq<Word>, i: nat, w: Word)
    requires i + 1 < |v|
    ensures v[i + 1 := w][..i + 2] == v[..i] + [v[i], w]
    ensures v[i + 1 := v[i + 1]] == v
  {
  }

  lemma OneMoreArg(done: seq<Arg>, arg: Arg)
    ensures Strings(done + [arg]) == Strings(done) + if arg.Text? then [arg.text] else []
  {
    assert (done + [arg])[..|done|] == done;
  }
}
