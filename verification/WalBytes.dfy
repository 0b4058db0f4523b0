// The bytes of a log in numbers, as other programs read and write them.
module WalBytes {
  import opened Bytes
  import opened Coding
  import opened Crc32c
  import opened WalSeal
  import opened WalFormat
  import opened WalReader
  import opened WalManager

  // ------------------------------------------------------------ numbers

  /** Least significant byte first. */
  lemma Fixed32InNumbers()
    ensures EncodeFixed32(0x04030201) == [1, 2, 3, 4]
    ensures DecodeFixed32([1, 2, 3, 4]) == 0x04030201
  {
  }

  /** What the groups of seven bits add up to. */
  function GroupsValue(b: Bytestring): nat {
    if |b| == 0 then 0 else b[0] % 128 + 128 * GroupsValue(b[1..])
  }

  lemma GroupsNext(b: Byte, rest: Bytestring)
    ensures GroupsValue([b] + rest) == b % 128 + 128 * GroupsValue(rest)
  {
    assert ([b] + rest)[1..] == rest;
  }

  /** The bytes of a number: seven bits each, the least significant first. */
  function Groups(v: nat): (r: Bytestring)
    decreases v
  {
    if v < 128 then [v] else [128 + v % 128] + Groups(v / 128)
  }

  lemma {:induction false} GroupsInNumbers(v: nat)
    ensures |Groups(v)| > 0 && GroupsValue(Groups(v)) == v
    ensures forall i | 0 <= i < |Groups(v)| :: Groups(v)[i] < 128 <==> i == |Groups(v)| - 1
    decreases v
  {
    if v >= 128 {
      GroupsInNumbers(v / 128);
      GroupsNext(128 + v % 128, Groups(v / 128));
    } else {
      GroupsNext(v, []);
      assert [v] + [] == [v];
    }
  }

  lemma DivideTwice(v: nat)
    ensures v / 128 / 128 == v / 16384 && v / 16384 / 128 == v / 2097152 && v / 2097152 / 128 == v / 268435456
  {
  }

  lemma {:induction false} ShortGroups(v: nat)
    requires v < 2097152
    ensures Groups(v) == if v < 128 then [v] else if v < 16384 then [Continued(v), v / 128]
                         else [Continued(v), Continued(v / 128), v / 16384]
  {
    DivideTwice(v);
    if v >= 128 {
      assert Groups(v) == [Continued(v)] + Groups(v / 128);
    }
    if v >= 16384 {
      assert Groups(v / 128) == [Continued(v / 128)] + Groups(v / 16384);
    }
  }

  lemma {:induction false} EncodesGroups(v: nat)
    requires v < 0x1_0000_0000
    ensures EncodeVarint32(v) == Groups(v)
  {
    DivideTwice(v);
    if v < 2097152 {
      ShortGroups(v);
    } else {
      assert Groups(v) == [Continued(v)] + Groups(v / 128);
      assert Groups(v / 128) == [Continued(v / 128)] + Groups(v / 16384);
      ShortGroups(v / 16384);
    }
  }

  /** Seven bits a byte, the least significant first, and only the last byte is below 128. */
  lemma VarintInNumbers(v: nat)
    requires v < 0x1_0000_0000
    ensures GroupsValue(EncodeVarint32(v)) == v
    ensures forall i | 0 <= i < |EncodeVarint32(v)| :: EncodeVarint32(v)[i] < 128 <==> i == |EncodeVarint32(v)| - 1
  {
    EncodesGroups(v);
    GroupsInNumbers(v);
  }

  // ------------------------------------------------------------ checksums

  /** One byte through the register. */
  lemma CrcOfOne()
    ensures Crc32c.Crc32c().Value([1]) == 0xa016d052 && Mask(0xa016d052) == 0x43282b05
  {
  }

  lemma FirstDigits(step: (bv32, Byte) -> bv32)
    requires step == StepByte
    ensures step(0xffffffff, 0x31) == 0x6f0a661c && step(0x6f0a661c, 0x32) == 0x8caa3b9f && step(0x8caa3b9f, 0x33) == 0xef84d04d
  {
    assert StepByte(0xffffffff, 0x31) == 0x6f0a661c && StepByte(0x6f0a661c, 0x32) == 0x8caa3b9f;
    assert StepByte(0x8caa3b9f, 0x33) == 0xef84d04d;
  }

  lemma MiddleDigits(step: (bv32, Byte) -> bv32)
    requires step == StepByte
    ensures step(0xef84d04d, 0x34) == 0x09c50b11 && step(0x09c50b11, 0x35) == 0xe72edcca && step(0xe72edcca, 0x36) == 0xbeca8e79
  {
    assert StepByte(0xef84d04d, 0x34) == 0x09c50b11 && StepByte(0x09c50b11, 0x35) == 0xe72edcca;
    assert StepByte(0xe72edcca, 0x36) == 0xbeca8e79;
  }

  lemma LastDigits(step: (bv32, Byte) -> bv32)
    requires step == StepByte
    ensures step(0xbeca8e79, 0x37) == 0xedbd6815 && step(0xedbd6815, 0x38) == 0x9f787f65 && step(0x9f787f65, 0x39) == 0x1cf96d7c
  {
    assert StepByte(0xbeca8e79, 0x37) == 0xedbd6815 && StepByte(0xedbd6815, 0x38) == 0x9f787f65;
    assert StepByte(0x9f787f65, 0x39) == 0x1cf96d7c;
  }

  lemma FoldThree(step: (bv32, Byte) -> bv32, state: bv32, a: Byte, b: Byte, c: Byte, rest: Bytestring)
    ensures Fold(step, state, [a, b, c] + rest) == Fold(step, step(step(step(state, a), b), c), rest)
  {
    var s, t := step(state, a), step(step(state, a), b);
    assert ([a, b, c] + rest)[1..] == [b, c] + rest && ([b, c] + rest)[1..] == [c] + rest && ([c] + rest)[1..] == rest;
    assert Fold(step, state, [a, b, c] + rest) == Fold(step, s, [b, c] + rest);
    assert Fold(step, s, [b, c] + rest) == Fold(step, t, [c] + rest);
  }

  lemma {:induction false} DigitsFold(step: (bv32, Byte) -> bv32)
    requires step == StepByte
    ensures Fold(step, 0xffffffff, [0x31, 0x32, 0x33] + ([0x34, 0x35, 0x36] + ([0x37, 0x38, 0x39] + []))) == 0x1cf96d7c
  {
    FirstDigits(step);
    MiddleDigits(step);
    LastDigits(step);
    FoldThree(step, 0xffffffff, 0x31, 0x32, 0x33, [0x34, 0x35, 0x36] + ([0x37, 0x38, 0x39] + []));
    FoldThree(step, 0xef84d04d, 0x34, 0x35, 0x36, [0x37, 0x38, 0x39] + []);
    FoldThree(step, 0xbeca8e79, 0x37, 0x38, 0x39, []);
  }

  /** The check value of the polynomial: the checksum of the digits 1 to 9. */
  lemma {:induction false} CrcOfDigits(digits: Bytestring)
    requires digits == [0x31, 0x32, 0x33, 0x34, 0x35, 0x36, 0x37, 0x38, 0x39]
    ensures Crc32c.Crc32c().Value(digits) == 0xe3069283
  {
    DigitsFold(StepByte);
    assert digits == [0x31, 0x32, 0x33] + ([0x34, 0x35, 0x36] + ([0x37, 0x38, 0x39] + []));
  }

  // ------------------------------------------------------------ records and entries

  /** A record: four bytes of checksum, two of length, the lower one first, one of type, and the data. */
  function RecordOf(seal: Seal, t: Byte, data: Bytestring): Bytestring
    requires |data| <= 0xffff
  {
    seal.tag([t] + data) + [|data| % 256, |data| / 256, t] + data
  }

  /** Where the parts of a record are. */
  lemma RecordInNumbers(seal: Seal, t: RecordType, data: Bytestring)
    requires seal.Lawful() && |data| <= 0xffff
    ensures var r := RecordBytes(seal, t, data);
            && |r| == 7 + |data| && r[..4] == seal.tag([t] + data)
            && (r[4] as int) + 256 * (r[5] as int) == |data| && r[6] == t && r[7..] == data
            && LengthField(r) == |data|
  {
    var tag, r := seal.tag([t] + data), RecordBytes(seal, t, data);
    assert |tag| == 4;
    assert r == tag + ([|data| % 256, |data| / 256, t] + data);
  }

  /** The type of a piece of an entry: 1 if it is all of it, 2 if it is the first, 4 if it is the last, and else 3. */
  function TypeOf(begin: bool, end: bool): Byte {
    if begin then if end then 1 else 2 else if end then 4 else 3
  }

  /**
   * The bytes of (the rest of) an entry at offset `at` of a log. Blocks have 32768 bytes. Where fewer than 7 are left of
   * one, they are zero; else a record takes as much of the entry as fits.
   */
  function EntryBytes(seal: Seal, at: nat, e: Bytestring, begin: bool): Bytestring
    decreases |e|, 32768 - at % 32768 < 7, 32768 - at % 32768 == 7
  {
    var left := 32768 - at % 32768;
    if left < 7 then Zeros(left) + EntryBytes(seal, at + left, e, begin)
    else if |e| <= left - 7 then RecordOf(seal, TypeOf(begin, true), e)
    else RecordOf(seal, TypeOf(begin, false), e[..left - 7]) + EntryBytes(seal, at + left, e[left - 7..], false)
  }

  /** The bytes of a log. */
  function LogBytes(seal: Seal, entries: seq<Bytestring>): Bytestring {
    if |entries| == 0 then []
    else
      var before := LogBytes(seal, entries[..|entries| - 1]);
      before + EntryBytes(seal, |before|, entries[|entries| - 1], true)
  }

  /** The cursor is at its offset in the block that the offset is in, or at the end of the one before. */
  ghost predicate InBlock(c: Cursor) {
    c.Valid() && c.end % 32768 == 0
  }

  lemma BlockLeft(at: nat, end: nat)
    requires end % 32768 == 0 && at <= end <= at + 32768
    ensures at < end ==> 32768 - at % 32768 == end - at
    ensures at == end ==> at % 32768 == 0
    ensures at + 32768 == end ==> at % 32768 == 0
  {
    var n := end / 32768;
    assert end == 32768 * n;
    if at < end {
      assert at == 32768 * (n - 1) + (at - (end - 32768));
    }
  }

  /** A rest too short for a header is zero. */
  lemma {:induction false} TrailerBytes(seal: Seal, c: Cursor, e: Bytestring, begin: bool)
    requires InBlock(c)
    ensures InBlock(c.Aligned())
    ensures EntryBytes(seal, c.at, e, begin) == Zeros(c.Aligned().at - c.at) + EntryBytes(seal, c.Aligned().at, e, begin)
  {
    BlockLeft(c.at, c.end);
    if c.Aligned().at == c.at {
      assert Zeros(0) + EntryBytes(seal, c.at, e, begin) == EntryBytes(seal, c.at, e, begin);
    }
  }

  lemma FragmentIsRecord(seal: Seal, a: Cursor, e: Bytestring, begin: bool)
    requires a.Valid() && a.at + HEADER_SIZE <= a.end
    ensures var n := Fits(a, e); Fragment(seal, a, e, begin) == RecordOf(seal, TypeOf(begin, n == |e|), e[..n])
  {
  }

  /** What is written next at the start of a fragment. */
  lemma {:induction false} FragmentBytes(seal: Seal, a: Cursor, e: Bytestring, begin: bool)
    requires InBlock(a) && a.at + HEADER_SIZE <= a.end
    ensures var n := Fits(a, e);
            && (n < |e| ==> a.at + HEADER_SIZE + n == a.end)
            && EntryBytes(seal, a.at, e, begin) == Fragment(seal, a, e, begin) + (if n == |e| then [] else EntryBytes(seal, a.end, e[n..], false))
  {
    BlockLeft(a.at, a.end);
    FragmentIsRecord(seal, a, e, begin);
    var n, left := Fits(a, e), 32768 - a.at % 32768;
    assert left == a.end - a.at;
    if n == |e| {
      assert e[..n] == e && RecordOf(seal, TypeOf(begin, true), e) + [] == RecordOf(seal, TypeOf(begin, true), e);
    }
  }

  lemma Append3(a: Bytestring, b: Bytestring, c: Bytestring)
    ensures (a + b) + c == a + (b + c) && b + [] == b
  {
  }

  /** The bytes of an entry from any offset: a fill, a piece, and the rest from the next block on. */
  lemma {:induction false} EntryPieces(seal: Seal, c: Cursor, e: Bytestring, begin: bool)
    requires seal.Lawful() && InBlock(c)
    ensures var n, next := Taken(c, e), NextCursor(c, e);
            && InBlock(next) && EntryBytes(seal, c.at, e, begin) ==
               Head(seal, c, e, begin) + (if n == |e| then [] else EntryBytes(seal, next.at, e[n..], false))
  {
    var a, n := c.Aligned(), Taken(c, e);
    TrailerBytes(seal, c, e, begin);
    FragmentBytes(seal, a, e, begin);
    Append3(Zeros(a.at - c.at), Fragment(seal, a, e, begin), if n == |e| then [] else EntryBytes(seal, a.end, e[n..], false));
  }

  /** The writer's bytes of an entry are those. */
  lemma {:induction false} SameEntry(seal: Seal, frame: Framer, c: Cursor, e: Bytestring, begin: bool)
    requires seal.Lawful() && frame == FramerOf(seal) && InBlock(c)
    ensures Encode(frame, c, e, begin).bytes == EntryBytes(seal, c.at, e, begin)
    ensures InBlock(Encode(frame, c, e, begin).cursor)
    decreases |e|, Stalled(c)
  {
    var n, next := Taken(c, e), NextCursor(c, e);
    EntryPieces(seal, c, e, begin);
    assert frame(c, e, begin) == Head(seal, c, e, begin);
    if n < |e| {
      SameEntry(seal, frame, next, e[n..], false);
    }
  }

  /** The bytes of any log, whatever the seal. */
  lemma {:induction false} LogInNumbers(seal: Seal, entries: seq<Bytestring>, k: nat)
    requires seal.Lawful() && k <= |entries|
    ensures LogTo(FramerOf(seal), entries, k).bytes == LogBytes(seal, entries[..k]) && InBlock(LogTo(FramerOf(seal), entries, k).cursor)
    decreases k
  {
    if k > 0 {
      LogInNumbers(seal, entries, k - 1);
      LogNext(FramerOf(seal), entries, k - 1);
      SameEntry(seal, FramerOf(seal), LogTo(FramerOf(seal), entries, k - 1).cursor, entries[k - 1], true);
      assert entries[..k][..k - 1] == entries[..k - 1];
    }
  }

  lemma EmptyEntry(seal: Seal)
    ensures EntryBytes(seal, 0, [], true) == seal.tag([1]) + [0, 0, 1]
  {
    var data: Bytestring := [];
    assert [1] + data == [1];
  }

  lemma TagOfOne(seal: Seal)
    requires seal == CrcSeal()
    ensures seal.tag([1]) == [5, 43, 40, 67]
  {
    CrcOfOne();
    assert EncodeFixed32(0x43282b05) == [5, 43, 40, 67];
  }

  lemma OneEntryBytes(seal: Seal, entries: seq<Bytestring>)
    requires |entries| == 1
    ensures LogBytes(seal, entries) == EntryBytes(seal, 0, entries[0], true)
  {
    assert entries[..0] == [] && LogBytes(seal, []) == [];
  }

  lemma {:induction false} SmallestWith(seal: Seal, entries: seq<Bytestring>, tag: Bytestring)
    requires seal.Lawful() && entries == [[]] && seal.tag([1]) == tag
    ensures Log(FramerOf(seal), entries).bytes == tag + [0, 0, 1]
  {
    LogInNumbers(seal, entries, 1);
    assert entries[..1] == entries;
    OneEntryBytes(seal, entries);
    EmptyEntry(seal);
  }

  /** The log that holds one empty entry, in full. */
  lemma {:induction false} SmallestLog(entries: seq<Bytestring>, seal: Seal)
    requires entries == [[]] && seal == CrcSeal()
    ensures seal.Lawful() && Log(FramerOf(seal), entries).bytes == [5, 43, 40, 67, 0, 0, 1]
  {
    SealOfLawful(Crc32c.Crc32c());
    TagOfOne(seal);
    SmallestWith(seal, entries, [5, 43, 40, 67]);
  }

  /** A logged write: 0 for a write and 1 for a delete, the length of the key, the key and the value. */
  lemma SerializeInNumbers(w: Write)
    requires Loggable(w)
    ensures Serialize(w) == [if w.kind.KWrite? then 0 else 1] + Groups(|w.key|) + w.key + w.value
  {
    EncodesGroups(|w.key|);
  }
}
