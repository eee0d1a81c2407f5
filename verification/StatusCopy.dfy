/** Status vectors word by word: what a reader finds in one, and what a copy holds of it. */
module StatusCopies {
  import opened Collections
  import opened StatusVectors

  /** Where the arguments from `at` on begin: a counted string takes three words, every other argument two. */
  ghost function Starts(v: seq<Word>, at: nat): (r: seq<nat>)
    ensures forall k :: 0 <= k < |r| ==> at <= r[k] < |v|
    decreases |v| - at
  {
    if at >= |v| || v[at] == Num(ARG_END) then []
    else [at] + Starts(v, at + if v[at] == Num(ARG_CSTRING) then 3 else 2)
  }

  ghost predicate HasText(w: Word) {
    w in {Num(ARG_STRING), Num(ARG_CSTRING), Num(ARG_INTERPRETED), Num(ARG_SQL_STATE)}
  }

  /** Where those with a text begin. */
  ghost function TextStarts(v: seq<Word>, at: nat): (r: seq<nat>)
    ensures forall k :: 0 <= k < |r| ==> at <= r[k] < |v| && HasText(v[r[k]])
    ensures forall i, k :: 0 <= i < k < |r| ==> r[i] < r[k]
    decreases |v| - at
  {
    if at >= |v| || v[at] == Num(ARG_END) then []
    else
      (if HasText(v[at]) then [at] else []) + TextStarts(v, at + if v[at] == Num(ARG_CSTRING) then 3 else 2)
  }

  /** `text` is as much of the characters at `w` as a C string gives. */
  ghost predicate UpToNul(w: Word, mem: Memory, text: string) {
    && Deref(w, mem).Some?
    && var chars := Deref(w, mem).value;
       text <= chars && '\0' !in text && (|text| < |chars| ==> chars[|text|] == '\0')
  }

  /** `text` is exactly as many of the characters at `w` as `count` says. */
  ghost predicate Counted(count: Word, w: Word, mem: Memory, text: string) {
    count == Num(|text|) && Deref(w, mem).Some? && text <= Deref(w, mem).value
  }

  /** The argument with a text that begins at `at` has this one. */
  ghost predicate TextAt(v: seq<Word>, at: nat, mem: Memory, text: string) {
    && at + 1 < |v|
    && if v[at] == Num(ARG_CSTRING) then at + 2 < |v| && Counted(v[at + 1], v[at + 2], mem, text)
       else UpToNul(v[at + 1], mem, text)
  }

  /** The two words that stand for the argument at `at` in a copy; `texts` are the beginnings of those with a text. */
  ghost predicate PairFor(v: seq<Word>, at: nat, texts: seq<nat>, owner: nat, kind: Word, value: Word) {
    && at + 1 < |v|
    && kind == (if v[at] == Num(ARG_CSTRING) then Num(ARG_STRING) else v[at])
    && if HasText(v[at]) then value.Own? && value.owner == owner && value.index < |texts| && texts[value.index] == at
       else value == v[at + 1]
  }

  /** `copy` and `strings` hold the arguments of `v`: one pair each, one string for each text, in order. */
  ghost predicate CopyOf(v: seq<Word>, mem: Memory, owner: nat, copy: seq<Word>, strings: seq<string>) {
    var starts, texts := Starts(v, 0), TextStarts(v, 0);
    && |copy| == 2 * |starts| + 1 && copy[2 * |starts|] == Num(ARG_END)
    && (forall j :: 0 <= j < |starts| ==> PairFor(v, starts[j], texts, owner, copy[2 * j], copy[2 * j + 1]))
    && |strings| == |texts|
    && (forall k :: 0 <= k < |texts| ==> TextAt(v, texts[k], mem, strings[k]))
  }

  // ---------------------------------------------------------------- reading finds just that

  lemma {:induction false} CStrStops(s: string)
    ensures CStr(s) <= s && '\0' !in CStr(s) && (|CStr(s)| < |s| ==> s[|CStr(s)|] == '\0')
  {
    if s != [] && s[0] != '\0' {
      CStrStops(s[1..]);
    }
  }

  /** What one argument of the list says about the words at `at`. */
  ghost predicate Says(v: seq<Word>, at: nat, mem: Memory, arg: Arg) {
    && at + 1 < |v|
    && Num(arg.kind) == (if v[at] == Num(ARG_CSTRING) then Num(ARG_STRING) else v[at])
    && if HasText(v[at]) then arg.Text? && TextAt(v, at, mem, arg.text) else arg.Plain? && arg.word == v[at + 1]
  }

  lemma OneIsSaid(v: seq<Word>, at: nat, mem: Memory)
    requires at < |v| && ReadOne(v, at, mem).Some?
    ensures Says(v, at, mem, ReadOne(v, at, mem).value.0)
    ensures ReadOne(v, at, mem).value.1 == at + if v[at] == Num(ARG_CSTRING) then 3 else 2
  {
    if v[at] != Num(ARG_CSTRING) && HasText(v[at]) {
      CStrStops(Deref(v[at + 1], mem).value);
    }
  }

  lemma {:induction false} ArgsAreSaid(v: seq<Word>, at: nat, mem: Memory)
    requires at <= |v| && Read(v, at, mem).Some?
    ensures var args := Read(v, at, mem).value;
            |Starts(v, at)| == |args| && forall j :: 0 <= j < |args| ==> Says(v, Starts(v, at)[j], mem, args[j])
    decreases |v| - at
  {
    if v[at] != Num(ARG_END) {
      OneIsSaid(v, at, mem);
      ArgsAreSaid(v, ReadOne(v, at, mem).value.1, mem);
    }
  }

  /** Strings from the front. */
  lemma {:induction false} StringsCons(a: Arg, rest: seq<Arg>)
    ensures Strings([a] + rest) == (if a.Text? then [a.text] else []) + Strings(rest)
  {
    var all := [a] + rest;
    if rest == [] {
      assert all[..0] == [] && Strings([]) == [];
    } else {
      var n := |rest| - 1;
      assert all[..|all| - 1] == [a] + rest[..n] && all[|all| - 1] == rest[n];
      StringsCons(a, rest[..n]);
    }
  }

  /** The strings of the list are the texts, in order. */
  lemma {:induction false} TextsAreStrings(v: seq<Word>, at: nat, mem: Memory)
    requires at <= |v| && Read(v, at, mem).Some?
    ensures var strings, texts := Strings(Read(v, at, mem).value), TextStarts(v, at);
            |strings| == |texts| && forall k :: 0 <= k < |texts| ==> TextAt(v, texts[k], mem, strings[k])
    decreases |v| - at
  {
    if v[at] != Num(ARG_END) {
      OneIsSaid(v, at, mem);
      var one := ReadOne(v, at, mem).value;
      TextsAreStrings(v, one.1, mem);
      var rest := Read(v, one.1, mem).value;
      StringsCons(one.0, rest);
      TextsPrepended(v, mem, if HasText(v[at]) then [at] else [], TextStarts(v, one.1),
                     if one.0.Text? then [one.0.text] else [], Strings(rest));
    }
  }

  lemma TextsPrepended(v: seq<Word>, mem: Memory, first: seq<nat>, texts: seq<nat>, text: seq<string>,
                       strings: seq<string>)
    requires |first| == |text| && forall k :: 0 <= k < |first| ==> TextAt(v, first[k], mem, text[k])
    requires |texts| == |strings| && forall k :: 0 <= k < |texts| ==> TextAt(v, texts[k], mem, strings[k])
    ensures forall k :: 0 <= k < |first + texts| ==> TextAt(v, (first + texts)[k], mem, (text + strings)[k])
  {
  }

  lemma StringsAhead(a: Arg, rest: seq<Arg>, j: nat)
    requires j <= |rest|
    ensures |Strings(([a] + rest)[..j])|
         == if j == 0 then 0 else (if a.Text? then 1 else 0) + |Strings(rest[..j - 1])|
  {
    if j > 0 {
      assert ([a] + rest)[..j] == [a] + rest[..j - 1];
      StringsCons(a, rest[..j - 1]);
    }
  }

  /** The text of argument `j` is the one with as many texts before it: it begins where the argument does. */
  ghost predicate InPlace(args: seq<Arg>, starts: seq<nat>, texts: seq<nat>, j: nat) {
    && j < |args| == |starts|
    && (args[j].Text? ==> |Strings(args[..j])| < |texts| && texts[|Strings(args[..j])|] == starts[j])
  }

  lemma OneMoreInPlace(a: Arg, at: nat, rest: seq<Arg>, starts: seq<nat>, texts: seq<nat>, j: nat)
    requires j <= |rest| == |starts| && (j > 0 ==> InPlace(rest, starts, texts, j - 1))
    ensures InPlace([a] + rest, [at] + starts, (if a.Text? then [at] else []) + texts, j)
  {
    StringsAhead(a, rest, j);
  }

  lemma {:induction false} TextsInPlace(v: seq<Word>, at: nat, mem: Memory, j: nat)
    requires at <= |v| && Read(v, at, mem).Some? && j < |Read(v, at, mem).value| == |Starts(v, at)|
    ensures InPlace(Read(v, at, mem).value, Starts(v, at), TextStarts(v, at), j)
    decreases |v| - at
  {
    OneIsSaid(v, at, mem);
    var one := ReadOne(v, at, mem).value;
    if j > 0 {
      TextsInPlace(v, one.1, mem, j - 1);
    }
    OneMoreInPlace(one.0, at, Read(v, one.1, mem).value, Starts(v, one.1), TextStarts(v, one.1), j);
  }

  /** The normalised list, with its strings, holds the arguments of the vector it was read from. */
  lemma LinkedIsCopy(v: seq<Word>, mem: Memory, owner: nat)
    requires Read(v, 0, mem).Some?
    ensures var args := Read(v, 0, mem).value;
            CopyOf(v, mem, owner, Linked(args, owner) + [Num(ARG_END)], Strings(args))
  {
    var args := Read(v, 0, mem).value;
    ArgsAreSaid(v, 0, mem);
    TextsAreStrings(v, 0, mem);
    forall j | 0 <= j < |args|
      ensures PairFor(v, Starts(v, 0)[j], TextStarts(v, 0), owner,
                      Linked(args, owner)[2 * j], Linked(args, owner)[2 * j + 1])
    {
      assert Says(v, Starts(v, 0)[j], mem, args[j]);
      LinkedSlots(args, owner, j);
      TextsInPlace(v, 0, mem, j);
    }
  }

  // ---------------------------------------------------------------- what a copy does not depend on

  ghost predicate SameBefore(w: Word, mem: Memory, w': Word, mem': Memory, count: Word) {
    && Deref(w, mem).Some? && Deref(w', mem').Some? && count.Num?
    && 0 <= count.value <= |Deref(w, mem).value| && count.value <= |Deref(w', mem').value|
    && Deref(w, mem).value[..count.value] == Deref(w', mem').value[..count.value]
  }

  /** The same argument at `at`, up to where its characters are and those beyond the count of a counted string. */
  ghost predicate AlikeAt(v: seq<Word>, mem: Memory, v': seq<Word>, mem': Memory, at: nat) {
    && at + 1 < |v| && at + 1 < |v'| && v[at] == v'[at]
    && if v[at] == Num(ARG_CSTRING) then
         && v[at + 1] == v'[at + 1] && at + 2 < |v| && at + 2 < |v'|
         && SameBefore(v[at + 2], mem, v'[at + 2], mem', v[at + 1])
       else if HasText(v[at]) then Deref(v[at + 1], mem) == Deref(v'[at + 1], mem')
       else v[at + 1] == v'[at + 1]
  }

  ghost predicate Alike(v: seq<Word>, mem: Memory, v': seq<Word>, mem': Memory) {
    Starts(v, 0) == Starts(v', 0) && forall at :: at in Starts(v, 0) ==> AlikeAt(v, mem, v', mem', at)
  }

  lemma {:induction false} SameTextStarts(v: seq<Word>, v': seq<Word>, at: nat)
    requires Starts(v, at) == Starts(v', at)
    requires forall i :: i in Starts(v, at) ==> i < |v| && i < |v'| && v[i] == v'[i]
    ensures TextStarts(v, at) == TextStarts(v', at)
    decreases |v| - at
  {
    if at < |v| && v[at] != Num(ARG_END) {
      var next := at + if v[at] == Num(ARG_CSTRING) then 3 else 2;
      assert Starts(v, at)[0] == at;
      assert Starts(v, next) == Starts(v, at)[1..] && Starts(v', next) == Starts(v', at)[1..];
      SameTextStarts(v, v', next);
    }
  }

  lemma {:induction false} TextsAreStarts(v: seq<Word>, at: nat)
    ensures forall i :: i in TextStarts(v, at) ==> i in Starts(v, at)
    decreases |v| - at
  {
    if at < |v| && v[at] != Num(ARG_END) {
      TextsAreStarts(v, at + if v[at] == Num(ARG_CSTRING) then 3 else 2);
    }
  }

  lemma AlikeTexts(v: seq<Word>, mem: Memory, v': seq<Word>, mem': Memory, at: nat, text: string, text': string)
    requires AlikeAt(v, mem, v', mem', at) && HasText(v[at])
    requires TextAt(v, at, mem, text) && TextAt(v', at, mem', text')
    ensures text == text'
  {
  }

  /**
    A copy holds nothing beyond the count of a counted string, nor any pointer of the original: it is determined by
    the arguments, with each text as far as it counts.
   */
  lemma NothingBeyondTheCount(v: seq<Word>, mem: Memory, v': seq<Word>, mem': Memory, owner: nat,
                              copy: seq<Word>, strings: seq<string>, copy': seq<Word>, strings': seq<string>)
    requires CopyOf(v, mem, owner, copy, strings) && CopyOf(v', mem', owner, copy', strings')
    requires Alike(v, mem, v', mem')
    ensures copy == copy' && strings == strings'
  {
    var starts, texts := Starts(v, 0), TextStarts(v, 0);
    SameTextStarts(v, v', 0);
    TextsAreStarts(v, 0);
    forall k | 0 <= k < |strings| ensures strings[k] == strings'[k] {
      AlikeTexts(v, mem, v', mem', texts[k], strings[k], strings'[k]);
    }
    forall i | 0 <= i < |copy| ensures copy[i] == copy'[i] {
      SamePair(v, mem, v', mem', owner, copy, strings, copy', strings', i);
    }
  }

  lemma SamePair(v: seq<Word>, mem: Memory, v': seq<Word>, mem': Memory, owner: nat,
                 copy: seq<Word>, strings: seq<string>, copy': seq<Word>, strings': seq<string>, i: nat)
    requires CopyOf(v, mem, owner, copy, strings) && CopyOf(v', mem', owner, copy', strings')
    requires Alike(v, mem, v', mem') && TextStarts(v, 0) == TextStarts(v', 0) && i < |copy|
    ensures copy[i] == copy'[i]
  {
    var starts, j := Starts(v, 0), i / 2;
    if j < |starts| {
      assert starts[j] in starts;
      var texts := TextStarts(v, 0);
      assert PairFor(v, starts[j], texts, owner, copy[2 * j], copy[2 * j + 1]);
      assert PairFor(v', starts[j], texts, owner, copy'[2 * j], copy'[2 * j + 1]);
      assert i == 2 * j || i == 2 * j + 1;
    }
  }

  // ---------------------------------------------------------------- which vectors can be read

  /** The argument at `at` is whole: its words are there, a text has characters, and a count does not exceed them. */
  ghost predicate Whole(v: seq<Word>, at: nat, mem: Memory) {
    && at + 1 < |v| && v[at].Num?
    && if v[at] == Num(ARG_CSTRING) then
         && at + 2 < |v| && v[at + 1].Num? && Deref(v[at + 2], mem).Some?
         && 0 <= v[at + 1].value <= |Deref(v[at + 2], mem).value|
       else HasText(v[at]) ==> Deref(v[at + 1], mem).Some?
  }

  /** Where the arguments from `at` on end. */
  ghost function End(v: seq<Word>, at: nat): nat
    decreases |v| - at
  {
    if at >= |v| || v[at] == Num(ARG_END) then at else End(v, at + if v[at] == Num(ARG_CSTRING) then 3 else 2)
  }

  /** A vector can be read exactly when it has a terminator at a type slot and whole arguments up to it. */
  lemma {:induction false} ReadableExactly(v: seq<Word>, at: nat, mem: Memory)
    requires at <= |v|
    ensures Read(v, at, mem).Some? <==> End(v, at) < |v| && forall i :: i in Starts(v, at) ==> Whole(v, i, mem)
    decreases |v| - at
  {
    if at < |v| && v[at] != Num(ARG_END) {
      OneIsWhole(v, at, mem);
      var next := at + if v[at] == Num(ARG_CSTRING) then 3 else 2;
      assert at in Starts(v, at);
      if next <= |v| {
        ReadableExactly(v, next, mem);
      }
    }
  }

  lemma OneIsWhole(v: seq<Word>, at: nat, mem: Memory)
    requires at < |v| && v[at] != Num(ARG_END)
    ensures ReadOne(v, at, mem).Some? <==> Whole(v, at, mem)
    ensures ReadOne(v, at, mem).Some? ==>
              ReadOne(v, at, mem).value.1 == at + if v[at] == Num(ARG_CSTRING) then 3 else 2
  {
  }

  // ---------------------------------------------------------------- the SQL state

  /** `state` is the text of the first SQL-state argument, or empty when there is none. */
  ghost predicate IsSqlState(v: seq<Word>, at: nat, mem: Memory, state: string) {
    var starts := Starts(v, at);
    || (exists j :: && 0 <= j < |starts| && v[starts[j]] == Num(ARG_SQL_STATE) && TextAt(v, starts[j], mem, state)
                    && forall i :: 0 <= i < j ==> v[starts[i]] != Num(ARG_SQL_STATE))
    || (state == "" && forall i :: 0 <= i < |starts| ==> v[starts[i]] != Num(ARG_SQL_STATE))
  }

  lemma {:induction false} FirstStateIs(v: seq<Word>, at: nat, mem: Memory)
    requires at <= |v| && Read(v, at, mem).Some?
    ensures IsSqlState(v, at, mem, FirstState(Read(v, at, mem).value))
    decreases |v| - at
  {
    if v[at] != Num(ARG_END) {
      OneIsSaid(v, at, mem);
      var one := ReadOne(v, at, mem).value;
      FirstStateIs(v, one.1, mem);
      StateBehind(v, at, one.1, mem, FirstState(Read(v, one.1, mem).value));
      assert Starts(v, at)[0] == at;
    }
  }

  /** An argument without the state changes nothing. */
  lemma StateBehind(v: seq<Word>, at: nat, next: nat, mem: Memory, state: string)
    requires at < |v| && Starts(v, at) == [at] + Starts(v, next)
    requires IsSqlState(v, next, mem, state)
    ensures v[at] != Num(ARG_SQL_STATE) ==> IsSqlState(v, at, mem, state)
  {
    var starts, rest := Starts(v, at), Starts(v, next);
    if v[at] != Num(ARG_SQL_STATE) {
      if j :| 0 <= j < |rest| && v[rest[j]] == Num(ARG_SQL_STATE) && TextAt(v, rest[j], mem, state)
              && forall i :: 0 <= i < j ==> v[rest[i]] != Num(ARG_SQL_STATE) {
        assert starts[j + 1] == rest[j];
        forall i | 0 <= i < j + 1 ensures v[starts[i]] != Num(ARG_SQL_STATE) {
          assert i > 0 ==> starts[i] == rest[i - 1];
        }
      } else {
        forall i | 0 <= i < |starts| ensures v[starts[i]] != Num(ARG_SQL_STATE) {
          assert i > 0 ==> starts[i] == rest[i - 1];
        }
      }
    }
  }
}
