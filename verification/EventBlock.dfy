/** The event block of EventListener: its layout, the counters inside it, and reading it back. */
module EventBlocks {
  import opened Collections

  type Uint32 = x: int | 0 <= x < 0x1_0000_0000
  type Name = seq<Byte>

  // ---------------------------------------------------------------- readUint32LE and writeUint32LE

  function Bytes4(v: Uint32): seq<Byte> {
    [v % 256, v / 0x100 % 256, v / 0x1_0000 % 256, v / 0x100_0000 % 256]
  }

  function Word(data: seq<Byte>, at: nat): Uint32
    requires at + 4 <= |data|
  {
    data[at] as int + 0x100 * data[at + 1] as int + 0x1_0000 * data[at + 2] as int + 0x100_0000 * data[at + 3] as int
  }

  lemma WordOfBytes(data: seq<Byte>, at: nat, v: Uint32)
    requires at + 4 <= |data| && data[at..at + 4] == Bytes4(v)
    ensures Word(data, at) == v
  {
    var bytes := data[at..at + 4];
    assert bytes[0] == data[at] && bytes[1] == data[at + 1] && bytes[2] == data[at + 2] && bytes[3] == data[at + 3];
    assert v / 0x100 / 0x100 == v / 0x1_0000 && v / 0x1_0000 / 0x100 == v / 0x100_0000;
  }

  /** The number whose bytes these are, the least significant first. */
  function LittleEndian(bytes: seq<Byte>): nat {
    if bytes == [] then 0 else bytes[0] + 256 * LittleEndian(bytes[1..])
  }

  /** Four bytes are read and written least significant first. */
  lemma WordIsLittleEndian(data: seq<Byte>, at: nat, v: Uint32)
    requires at + 4 <= |data|
    ensures Word(data, at) == LittleEndian(data[at..at + 4])
    ensures LittleEndian(Bytes4(v)) == v
  {
    FourBytes(data[at..at + 4]);
    FourBytes(Bytes4(v));
    assert v / 0x100 / 0x100 == v / 0x1_0000 && v / 0x1_0000 / 0x100 == v / 0x100_0000;
  }

  lemma FourBytes(bytes: seq<Byte>)
    requires |bytes| == 4
    ensures LittleEndian(bytes)
         == bytes[0] as int + 0x100 * bytes[1] as int + 0x1_0000 * bytes[2] as int + 0x100_0000 * bytes[3] as int
  {
    var rest := bytes[1..];
    assert rest[1..][1..][1..] == [];
    assert LittleEndian(rest[1..][1..]) == rest[1..][1..][0];
    assert LittleEndian(rest[1..]) == rest[1..][0] + 256 * LittleEndian(rest[1..][1..]);
    assert LittleEndian(rest) == rest[0] + 256 * LittleEndian(rest[1..]);
  }

  // ---------------------------------------------------------------- layout

  /** What the constructor accepts. */
  predicate Acceptable(names: seq<Name>) {
    1 <= |names| <= 255 && forall i :: 0 <= i < |names| ==> 1 <= |names[i]| <= 255
  }

  /** The length byte, the name, the counter. */
  function Field(name: Name, count: Uint32): (f: seq<Byte>)
    ensures |f| == |name| + 5
  {
    [|name| % 256] + name + Bytes4(count)
  }

  /** Where field `i` starts, or the block ends when there is none. */
  function FieldStart(names: seq<Name>, i: nat): nat
    requires i <= |names|
  {
    if i == 0 then 1 else FieldStart(names, i - 1) + |names[i - 1]| + 5
  }

  /** The version byte and the first `i` fields. */
  function Fields(names: seq<Name>, counts: seq<Uint32>, i: nat): (b: seq<Byte>)
    requires i <= |names| == |counts|
    ensures |b| == FieldStart(names, i)
  {
    if i == 0 then [1] else Fields(names, counts, i - 1) + Field(names[i - 1], counts[i - 1])
  }

  function Block(names: seq<Name>, counts: seq<Uint32>): seq<Byte>
    requires |names| == |counts|
  {
    Fields(names, counts, |names|)
  }

  function BlockSize(names: seq<Name>): nat { FieldStart(names, |names|) }

  /** Offset of the counter of name `i`. */
  function CounterAt(names: seq<Name>, i: nat): nat
    requires i < |names|
  {
    FieldStart(names, i) + 1 + |names[i]|
  }

  lemma {:induction false} StartsGrow(names: seq<Name>, i: nat, j: nat)
    requires i <= j <= |names|
    ensures FieldStart(names, i) + 5 * (j - i) <= FieldStart(names, j)
  {
    if i < j {
      StartsGrow(names, i, j - 1);
    }
  }

  /** Counters lie inside the block, apart from one another and from every name. */
  lemma CountersApart(names: seq<Name>, i: nat, j: nat)
    requires i < j < |names|
    ensures FieldStart(names, i) + |names[i]| < CounterAt(names, i)
    ensures CounterAt(names, i) + 4 == FieldStart(names, i + 1) <= FieldStart(names, j) < CounterAt(names, j)
    ensures CounterAt(names, j) + 4 <= BlockSize(names)
  {
    StartsGrow(names, i + 1, j);
    StartsGrow(names, j + 1, |names|);
  }

  lemma CounterInside(names: seq<Name>, i: nat)
    requires i < |names|
    ensures CounterAt(names, i) + 4 == FieldStart(names, i + 1) <= BlockSize(names)
  {
    StartsGrow(names, i + 1, |names|);
  }

  lemma TakeLeft(a: seq<Byte>, b: seq<Byte>, lo: nat, hi: nat)
    requires lo <= hi <= |a|
    ensures (a + b)[lo..hi] == a[lo..hi]
  {
  }

  lemma TakeRight(a: seq<Byte>, b: seq<Byte>)
    ensures (a + b)[|a|..|a| + |b|] == b
  {
  }

  /** The field of name `i`, wherever the block has got to. */
  lemma {:induction false} FieldInBlock(names: seq<Name>, counts: seq<Uint32>, i: nat, k: nat)
    requires i < k <= |names| == |counts|
    ensures FieldStart(names, i) + |names[i]| + 5 <= FieldStart(names, k)
    ensures Fields(names, counts, k)[FieldStart(names, i)..FieldStart(names, i) + |names[i]| + 5]
         == Field(names[i], counts[i])
  {
    var before, last := Fields(names, counts, k - 1), Field(names[k - 1], counts[k - 1]);
    if i == k - 1 {
      TakeRight(before, last);
    } else {
      FieldInBlock(names, counts, i, k - 1);
      TakeLeft(before, last, FieldStart(names, i), FieldStart(names, i) + |names[i]| + 5);
    }
  }

  lemma FieldWord(b: seq<Byte>, at: nat, name: Name, count: Uint32)
    requires at + |name| + 5 <= |b| && b[at..at + |name| + 5] == Field(name, count)
    ensures Word(b, at + 1 + |name|) == count
  {
    var end := at + 1 + |name|;
    assert b[end..end + 4] == b[at..at + |name| + 5][|name| + 1..] == Bytes4(count);
    WordOfBytes(b, end, count);
  }

  lemma CounterInBlock(names: seq<Name>, counts: seq<Uint32>, i: nat)
    requires i < |names| == |counts|
    ensures CounterAt(names, i) + 4 <= BlockSize(names) && Word(Block(names, counts), CounterAt(names, i)) == counts[i]
  {
    FieldInBlock(names, counts, i, |names|);
    FieldWord(Block(names, counts), FieldStart(names, i), names[i], counts[i]);
  }

  /** The length, the name, and the counter with its least significant byte first. */
  ghost predicate FieldBytes(b: seq<Byte>, start: nat, name: Name, count: Uint32) {
    && start + 1 + |name| + 4 <= |b|
    && b[start] == |name| && b[start + 1..start + 1 + |name|] == name
    && LittleEndian(b[start + 1 + |name|..start + 1 + |name| + 4]) == count
  }

  /** Byte for byte: the version 1, then the fields, with nothing between them and nothing behind the last. */
  lemma BlockBytes(names: seq<Name>, counts: seq<Uint32>)
    requires |names| == |counts| && Acceptable(names)
    ensures var b := Block(names, counts);
            && |b| == FieldStart(names, |names|) > FieldStart(names, 0) == 1 == b[0]
            && forall i :: 0 <= i < |names| ==>
                 && FieldBytes(b, FieldStart(names, i), names[i], counts[i])
                 && FieldStart(names, i + 1) == FieldStart(names, i) + 1 + |names[i]| + 4
  {
    VersionByte(names, counts, |names|);
    StartsGrow(names, 0, |names|);
    forall i | 0 <= i < |names| ensures FieldBytes(Block(names, counts), FieldStart(names, i), names[i], counts[i]) {
      FieldInBlock(names, counts, i, |names|);
      FieldIsBytes(Block(names, counts), FieldStart(names, i), names[i], counts[i]);
    }
  }

  lemma FieldIsBytes(b: seq<Byte>, at: nat, name: Name, count: Uint32)
    requires |name| <= 255 && at + |name| + 5 <= |b| && b[at..at + |name| + 5] == Field(name, count)
    ensures FieldBytes(b, at, name, count)
  {
    NameInField(b, at, name, count);
    FieldWord(b, at, name, count);
    WordIsLittleEndian(b, at + 1 + |name|, count);
  }

  // ---------------------------------------------------------------- writing a counter

  function Overwrite(b: seq<Byte>, at: nat, v: Uint32): seq<Byte>
    requires at + 4 <= |b|
  {
    b[..at] + Bytes4(v) + b[at + 4..]
  }

  /** What writeUint32LE writes readUint32LE reads, and words elsewhere are as before. */
  lemma WrittenIsRead(b: seq<Byte>, at: nat, v: Uint32)
    requires at + 4 <= |b|
    ensures Word(Overwrite(b, at, v), at) == v
    ensures forall k: nat :: k + 4 <= at || at + 4 <= k <= |b| - 4 ==> Word(Overwrite(b, at, v), k) == Word(b, k)
  {
    assert Overwrite(b, at, v)[at..at + 4] == Bytes4(v);
    WordOfBytes(Overwrite(b, at, v), at, v);
  }

  lemma OverwriteLeft(a: seq<Byte>, b: seq<Byte>, at: nat, v: Uint32)
    requires at + 4 <= |a|
    ensures Overwrite(a + b, at, v) == Overwrite(a, at, v) + b
  {
  }

  lemma OverwriteRight(a: seq<Byte>, b: seq<Byte>, at: nat, v: Uint32)
    requires at + 4 <= |b|
    ensures Overwrite(a + b, |a| + at, v) == a + Overwrite(b, at, v)
  {
  }

  lemma OverwriteField(name: Name, count: Uint32, v: Uint32)
    ensures Overwrite(Field(name, count), 1 + |name|, v) == Field(name, v)
  {
  }

  lemma {:induction false} EarlierFields(names: seq<Name>, counts: seq<Uint32>, i: nat, k: nat, v: Uint32)
    requires k <= i < |names| == |counts|
    ensures Fields(names, counts[i := v], k) == Fields(names, counts, k)
  {
    if k > 0 {
      EarlierFields(names, counts, i, k - 1, v);
    }
  }

  /** Writing a counter in place changes that counter of the block and nothing else. */
  lemma {:induction false} WriteCounter(names: seq<Name>, counts: seq<Uint32>, i: nat, k: nat, v: Uint32)
    requires i < k <= |names| == |counts|
    ensures CounterAt(names, i) + 4 <= FieldStart(names, k)
    ensures Overwrite(Fields(names, counts, k), CounterAt(names, i), v) == Fields(names, counts[i := v], k)
  {
    var before, last := Fields(names, counts, k - 1), Field(names[k - 1], counts[k - 1]);
    if i == k - 1 {
      EarlierFields(names, counts, i, i, v);
      OverwriteField(names[i], counts[i], v);
      OverwriteRight(before, last, 1 + |names[i]|, v);
    } else {
      WriteCounter(names, counts, i, k - 1, v);
      OverwriteLeft(before, last, CounterAt(names, i), v);
    }
  }

  // ---------------------------------------------------------------- reading a block back

  datatype Entry = Entry(name: Name, count: Uint32)

  /** Reads fields from `at` on, as the server does. */
  function ParseFrom(block: seq<Byte>, at: nat): Option<seq<Entry>>
    requires at <= |block|
    decreases |block| - at
  {
    if at == |block| then Some([])
    else
      var end := at + 1 + block[at];
      if end + 4 > |block| then None
      else
        match ParseFrom(block, end + 4)
        case None => None
        case Some(rest) => Some([Entry(block[at + 1..end], Word(block, end))] + rest)
  }

  function Parse(block: seq<Byte>): Option<seq<Entry>> {
    if block == [] || block[0] != 1 then None else ParseFrom(block, 1)
  }

  function EntriesFrom(names: seq<Name>, counts: seq<Uint32>, i: nat): seq<Entry>
    requires i <= |names| == |counts|
    decreases |names| - i
  {
    if i == |names| then [] else [Entry(names[i], counts[i])] + EntriesFrom(names, counts, i + 1)
  }

  ghost predicate HoldsField(b: seq<Byte>, names: seq<Name>, counts: seq<Uint32>, i: nat)
    requires i < |names| == |counts|
  {
    && FieldStart(names, i) + |names[i]| + 5 <= |b|
    && b[FieldStart(names, i)..FieldStart(names, i) + |names[i]| + 5] == Field(names[i], counts[i])
  }

  /** A block always reads back as the names it was built from, with the counters it holds. */
  lemma ParseBlock(names: seq<Name>, counts: seq<Uint32>)
    requires |names| == |counts| && Acceptable(names)
    ensures Parse(Block(names, counts)) == Some(EntriesFrom(names, counts, 0))
  {
    VersionByte(names, counts, |names|);
    forall i | 0 <= i < |names| ensures HoldsField(Block(names, counts), names, counts, i) {
      FieldInBlock(names, counts, i, |names|);
    }
    ParseFields(Block(names, counts), names, counts, 0);
  }

  lemma {:induction false} VersionByte(names: seq<Name>, counts: seq<Uint32>, k: nat)
    requires k <= |names| == |counts|
    ensures |Fields(names, counts, k)| > 0 && Fields(names, counts, k)[0] == 1
  {
    if k > 0 {
      VersionByte(names, counts, k - 1);
    }
  }

  lemma {:induction false} ParseFields(b: seq<Byte>, names: seq<Name>, counts: seq<Uint32>, i: nat)
    requires i <= |names| == |counts| && Acceptable(names) && |b| == BlockSize(names)
    requires forall k :: 0 <= k < |names| ==> HoldsField(b, names, counts, k)
    ensures FieldStart(names, i) <= |b| && ParseFrom(b, FieldStart(names, i)) == Some(EntriesFrom(names, counts, i))
    decreases |names| - i
  {
    if i < |names| {
      assert HoldsField(b, names, counts, i);
      ParseFields(b, names, counts, i + 1);
      ParseField(b, FieldStart(names, i), names[i], counts[i], EntriesFrom(names, counts, i + 1));
    }
  }

  lemma ParseField(b: seq<Byte>, at: nat, name: Name, count: Uint32, rest: seq<Entry>)
    requires |name| <= 255 && at + |name| + 5 <= |b| && b[at..at + |name| + 5] == Field(name, count)
    requires ParseFrom(b, at + |name| + 5) == Some(rest)
    ensures ParseFrom(b, at) == Some([Entry(name, count)] + rest)
  {
    NameInField(b, at, name, count);
    FieldWord(b, at, name, count);
  }

  lemma NameInField(b: seq<Byte>, at: nat, name: Name, count: Uint32)
    requires |name| <= 255 && at + |name| + 5 <= |b| && b[at..at + |name| + 5] == Field(name, count)
    ensures b[at] == |name| && b[at + 1..at + 1 + |name|] == name
  {
    var f := b[at..at + |name| + 5];
    assert b[at] == f[0];
    assert forall k :: 0 <= k < |name| ==> name[k] == Field(name, count)[1 + k] == f[1 + k] == b[at + 1 + k];
  }
}
