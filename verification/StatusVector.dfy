/** Status vectors: how they are read, and what the normalised copy inside a DatabaseException means. */
module StatusVectors {
  import opened Collections

  // Argument types of a status vector (Firebird's ibase.h).
  const ARG_END := 0
  const ARG_GDS := 1
  const ARG_STRING := 2
  const ARG_CSTRING := 3
  const ARG_NUMBER := 4
  const ARG_INTERPRETED := 5
  const ARG_SQL_STATE := 19

  predicate StringKind(kind: int) { kind == ARG_STRING || kind == ARG_INTERPRETED || kind == ARG_SQL_STATE }

  /** An `intptr_t`: a number, a pointer to characters elsewhere, or the c_str() of a string an exception owns. */
  datatype Word = Num(value: int) | Ext(chars: string) | Own(owner: nat, index: nat)

  /** The strings owned by one exception. */
  datatype Memory = Memory(owner: nat, strings: seq<string>)

  function Deref(w: Word, mem: Memory): Option<string> {
    match w
    case Num(_) => None
    case Ext(chars) => Some(chars)
    case Own(owner, index) => if owner == mem.owner && index < |mem.strings| then Some(mem.strings[index]) else None
  }

  /** A C string ends at the first NUL. */
  function CStr(s: string): (r: string)
    ensures r == s <==> '\0' !in s
  {
    if s == [] || s[0] == '\0' then [] else [s[0]] + CStr(s[1..])
  }

  /** An argument; counted strings read as plain ones. */
  datatype Arg = Plain(kind: int, word: Word) | Text(kind: int, text: string)

  /** One argument at `at`, and where the next begins; None when the vector does not hold one there. */
  function ReadOne(v: seq<Word>, at: nat, mem: Memory): (r: Option<(Arg, nat)>)
    requires at < |v|
    ensures r.Some? ==> at < r.value.1 <= |v|
  {
    if !v[at].Num? || v[at].value == ARG_END || at + 1 >= |v| then None
    else
      var kind := v[at].value;
      if kind == ARG_CSTRING then
        if at + 2 >= |v| || !v[at + 1].Num? || v[at + 1].value < 0 then None
        else
          match Deref(v[at + 2], mem)
          case None => None
          case Some(s) =>
            var len := v[at + 1].value;
            if len > |s| then None else Some((Text(ARG_STRING, s[..len]), at + 3))
      else if StringKind(kind) then
        match Deref(v[at + 1], mem)
        case None => None
        case Some(s) => Some((Text(kind, CStr(s)), at + 2))
      else Some((Plain(kind, v[at + 1]), at + 2))
  }

  /** The argument list from `at` up to a terminator at a type slot; None when there is none. */
  function Read(v: seq<Word>, at: nat, mem: Memory): Option<seq<Arg>>
    requires at <= |v|
    decreases |v| - at
  {
    if at == |v| then None
    else if v[at] == Num(ARG_END) then Some([])
    else
      match ReadOne(v, at, mem)
      case None => None
      case Some((arg, next)) =>
        match Read(v, next, mem)
        case None => None
        case Some(rest) => Some([arg] + rest)
  }

  /** What reading produces. */
  predicate Proper(arg: Arg) {
    if arg.Text? then StringKind(arg.kind) else arg.kind != ARG_END && arg.kind != ARG_CSTRING && !StringKind(arg.kind)
  }

  lemma {:induction false} ReadIsProper(v: seq<Word>, at: nat, mem: Memory)
    requires at <= |v| && Read(v, at, mem).Some?
    ensures forall arg :: arg in Read(v, at, mem).value ==> Proper(arg)
    decreases |v| - at
  {
    if v[at] != Num(ARG_END) {
      ReadIsProper(v, ReadOne(v, at, mem).value.1, mem);
    }
  }

  // ---------------------------------------------------------------- the normalised form

  /** Texts in order: what errorStrings holds. */
  function Strings(args: seq<Arg>): seq<string> {
    if args == [] then []
    else
      var n := |args| - 1;
      Strings(args[..n]) + if args[n].Text? then [args[n].text] else []
  }

  /** Pairs of type and value, the k-th text pointing to string k of `owner`. */
  function Linked(args: seq<Arg>, owner: nat): (v: seq<Word>)
    ensures |v| == 2 * |args|
  {
    if args == [] then []
    else
      var n := |args| - 1;
      Linked(args[..n], owner)
      + [Num(args[n].kind), if args[n].Text? then Own(owner, |Strings(args[..n])|) else args[n].word]
  }

  /** Pairs in which string slots may hold anything: a placeholder, or a pointer to somebody else's string. */
  ghost predicate Shaped(v: seq<Word>, args: seq<Arg>) {
    && |v| == 2 * |args| + 1 && v[2 * |args|] == Num(ARG_END)
    && forall j :: 0 <= j < |args| ==>
         && Proper(args[j]) && v[2 * j] == Num(args[j].kind)
         && (args[j].Plain? ==> v[2 * j + 1] == args[j].word)
  }

  lemma {:induction false} LinkedSlots(args: seq<Arg>, owner: nat, j: nat)
    requires j < |args|
    ensures |Strings(args[..j])| <= |Strings(args)|
    ensures Linked(args, owner)[2 * j] == Num(args[j].kind)
    ensures Linked(args, owner)[2 * j + 1] == if args[j].Text? then Own(owner, |Strings(args[..j])|) else args[j].word
    ensures args[j].Text? ==>
              |Strings(args[..j])| < |Strings(args)| && Strings(args)[|Strings(args[..j])|] == args[j].text
  {
    var n := |args| - 1;
    if j < n {
      assert args[..n][..j] == args[..j];
      LinkedSlots(args[..n], owner, j);
    }
  }

  lemma LinkedIsShaped(args: seq<Arg>, owner: nat)
    requires forall arg :: arg in args ==> Proper(arg)
    ensures Shaped(Linked(args, owner) + [Num(ARG_END)], args)
  {
    forall j | 0 <= j < |args|
      ensures Linked(args, owner)[2 * j] == Num(args[j].kind)
      ensures args[j].Plain? ==> Linked(args, owner)[2 * j + 1] == args[j].word
    {
      LinkedSlots(args, owner, j);
    }
  }

  // ---------------------------------------------------------------- what the copy means

  /** A text handed out as a C string is cut at its first NUL. */
  function Cut(arg: Arg): Arg { if arg.Text? then Text(arg.kind, CStr(arg.text)) else arg }

  function CutFrom(args: seq<Arg>, j: nat): seq<Arg>
    requires j <= |args|
    decreases |args| - j
  {
    if j == |args| then [] else [Cut(args[j])] + CutFrom(args, j + 1)
  }

  ghost predicate NoNul(args: seq<Arg>) {
    forall j :: 0 <= j < |args| && args[j].Text? ==> '\0' !in args[j].text
  }

  lemma {:induction false} CutNothing(args: seq<Arg>, j: nat)
    requires j <= |args|
    ensures CutFrom(args, j) == args[j..] <==> forall k :: j <= k < |args| && args[k].Text? ==> '\0' !in args[k].text
    decreases |args| - j
  {
    if j < |args| {
      CutNothing(args, j + 1);
      SameHeadAndTail(Cut(args[j]), CutFrom(args, j + 1), args[j], args[j + 1..]);
      assert args[j..] == [args[j]] + args[j + 1..];
    }
  }

  lemma SameHeadAndTail(a: Arg, s: seq<Arg>, b: Arg, t: seq<Arg>)
    ensures [a] + s == [b] + t <==> a == b && s == t
  {
    assert ([a] + s)[0] == a && ([b] + t)[0] == b && ([a] + s)[1..] == s && ([b] + t)[1..] == t;
  }

  lemma {:induction false} ReadLinked(args: seq<Arg>, owner: nat, j: nat)
    requires j <= |args| && forall arg :: arg in args ==> Proper(arg)
    ensures Read(Linked(args, owner) + [Num(ARG_END)], 2 * j, Memory(owner, Strings(args))) == Some(CutFrom(args, j))
    decreases |args| - j
  {
    var v, mem := Linked(args, owner) + [Num(ARG_END)], Memory(owner, Strings(args));
    if j < |args| {
      LinkedSlots(args, owner, j);
      assert Proper(args[j]);
      assert ReadOne(v, 2 * j, mem) == Some((Cut(args[j]), 2 * j + 2));
      ReadLinked(args, owner, j + 1);
    }
  }

  /**
    Normalisation preserves meaning: the copy reads, through its own strings alone, as the original's argument list
    with every text cut at its first NUL; and as that very list exactly when no counted string contains a NUL.
   */
  lemma CopyMeansTheSame(v: seq<Word>, mem: Memory, owner: nat)
    requires Read(v, 0, mem).Some?
    ensures var args := Read(v, 0, mem).value;
            var copy := Read(Linked(args, owner) + [Num(ARG_END)], 0, Memory(owner, Strings(args)));
            && copy == Some(CutFrom(args, 0))
            && (copy == Read(v, 0, mem) <==> NoNul(args))
  {
    var args := Read(v, 0, mem).value;
    ReadIsProper(v, 0, mem);
    ReadLinked(args, owner, 0);
    CutNothing(args, 0);
    assert args[0..] == args;
  }

  /** Only counted strings can contain a NUL. */
  lemma {:induction false} PlainStringsHaveNoNul(v: seq<Word>, at: nat, mem: Memory)
    requires at <= |v| && Read(v, at, mem).Some? && Num(ARG_CSTRING) !in v
    ensures NoNul(Read(v, at, mem).value)
    decreases |v| - at
  {
    if v[at] != Num(ARG_END) {
      var one := ReadOne(v, at, mem).value;
      PlainStringsHaveNoNul(v, one.1, mem);
      if one.0.Text? {
        var s := Deref(v[at + 1], mem).value;
        CStrIsCut(s);
      }
    }
  }

  lemma {:induction false} CStrIsCut(s: string)
    ensures '\0' !in CStr(s)
  {
    if s != [] && s[0] != '\0' {
      CStrIsCut(s[1..]);
    }
  }

  /** Copying a copy changes nothing but the owner. */
  lemma RelinkOnlyRenames(args: seq<Arg>, first: nat, second: nat)
    requires forall arg :: arg in args ==> Proper(arg)
    ensures Read(Linked(args, first) + [Num(ARG_END)], 0, Memory(first, Strings(args)))
         == Read(Linked(args, second) + [Num(ARG_END)], 0, Memory(second, Strings(args)))
  {
    ReadLinked(args, first, 0);
    ReadLinked(args, second, 0);
  }

  // ---------------------------------------------------------------- SQL state

  /** Text of the first SQL-state argument; empty without one. */
  function FirstState(args: seq<Arg>): string {
    if args == [] then ""
    else if args[0].kind == ARG_SQL_STATE && args[0].Text? then args[0].text
    else FirstState(args[1..])
  }

  /** The SQL state of the copy is the original's. */
  lemma {:induction false} StateSurvives(args: seq<Arg>, j: nat)
    requires j <= |args| && forall arg :: arg in args && arg.kind == ARG_SQL_STATE && arg.Text? ==> '\0' !in arg.text
    ensures FirstState(CutFrom(args, j)) == FirstState(args[j..])
    decreases |args| - j
  {
    if j < |args| {
      StateSurvives(args, j + 1);
      assert args[j..][1..] == args[j + 1..];
      assert CutFrom(args, j)[1..] == CutFrom(args, j + 1);
      assert args[j] in args;
    }
  }

  lemma {:induction false} StatesHaveNoNul(v: seq<Word>, at: nat, mem: Memory)
    requires at <= |v| && Read(v, at, mem).Some?
    ensures forall arg :: arg in Read(v, at, mem).value && arg.kind == ARG_SQL_STATE && arg.Text? ==> '\0' !in arg.text
    decreases |v| - at
  {
    if v[at] != Num(ARG_END) {
      var one := ReadOne(v, at, mem).value;
      StatesHaveNoNul(v, one.1, mem);
      if one.0.Text? && one.0.kind == ARG_SQL_STATE {
        CStrIsCut(Deref(v[at + 1], mem).value);
      }
    }
  }

  /** extractSqlState of the original agrees with the first SQL-state argument of the copy. */
  lemma SqlStateAgrees(v: seq<Word>, mem: Memory, owner: nat)
    requires Read(v, 0, mem).Some?
    ensures var args := Read(v, 0, mem).value;
            var copy := Read(Linked(args, owner) + [Num(ARG_END)], 0, Memory(owner, Strings(args)));
            copy.Some? && FirstState(copy.value) == FirstState(args)
  {
    var args := Read(v, 0, mem).value;
    CopyMeansTheSame(v, mem, owner);
    StatesHaveNoNul(v, 0, mem);
    StateSurvives(args, 0);
    assert args[0..] == args;
  }

  /** A counted string of three characters with a NUL in the middle: its copy reads as the first character alone. */
  lemma CountedNulIsCut()
    ensures var v, args := [Num(ARG_CSTRING), Num(3), Ext("a\0b"), Num(ARG_END)], [Text(ARG_STRING, "a\0b")];
            && Read(v, 0, Memory(0, [])) == Some(args)
            && Read(Linked(args, 1) + [Num(ARG_END)], 0, Memory(1, Strings(args))) == Some([Text(ARG_STRING, "a")])
  {
    var v, args := [Num(ARG_CSTRING), Num(3), Ext("a\0b"), Num(ARG_END)], [Text(ARG_STRING, "a\0b")];
    var mem := Memory(0, []);
    assert "a\0b"[..3] == "a\0b";
    assert ReadOne(v, 0, mem) == Some((args[0], 3));
    assert v[3] == Num(ARG_END) && Read(v, 3, mem) == Some([]);
    assert v[0] != Num(ARG_END) && [args[0]] + [] == args;
    ReadLinked(args, 1, 0);
    assert CutFrom(args, 1) == [];
    assert "a\0b"[1..] == "\0b" && CStr("\0b") == [];
    assert CStr("a\0b") == "a";
    assert [Cut(args[0])] + [] == [Text(ARG_STRING, "a")];
  }
}
