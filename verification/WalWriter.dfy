// The log writer.
module WalWriter {
  import opened Bytes
  import opened Crc32c
  import opened Coding
  import opened WalSeal
  import opened WalFormat

  /** Checksums of the one-byte strings that hold each record type. */
  function TypeCrcs(crc: Checksum): (r: seq<bv32>)
    ensures |r| == MAX_RECORD_TYPE + 1
    ensures forall t: RecordType {:trigger r[t]} :: r[t] == crc.Value([t])
  {
    seq(MAX_RECORD_TYPE + 1, t requires 0 <= t <= MAX_RECORD_TYPE => crc.Value([t]))
  }

  /** Appends entries to one log file, which it creates. */
  class Writer {
    const crc: Checksum
    const typeCrc: seq<bv32>
    ghost const seal: Seal
    ghost const frame: Framer
    var file: Bytestring
    var blockOffset: nat

    /** The checksum table is right for the log's seal. */
    ghost predicate Sealed() {
      && crc.Lawful() && seal.Lawful() && seal.Implements(crc) && frame == FramerOf(seal)
      && |typeCrc| == MAX_RECORD_TYPE + 1
      && (forall t: RecordType {:trigger typeCrc[t]} :: typeCrc[t] == crc.Value([t]))
    }

    ghost predicate Valid()
      reads this
    {
      blockOffset <= BLOCK_SIZE
    }

    /** Where the next byte goes. */
    ghost function At(): (c: Cursor)
      requires Valid()
      reads this
      ensures c.Valid()
    {
      Cursor(|file|, |file| + BLOCK_SIZE - blockOffset)
    }

    constructor (crc: Checksum, ghost seal: Seal)
      requires crc.Lawful() && seal.Lawful() && seal.Implements(crc)
      ensures Valid() && Sealed()
      ensures this.crc == crc && this.seal == seal && frame == FramerOf(seal) && file == [] && At() == START
    {
      this.crc := crc;
      this.seal := seal;
      this.frame := FramerOf(seal);
      typeCrc := TypeCrcs(crc);
      file := [];
      blockOffset := 0;
    }

    /** The stored checksum field for a record of type `t`. */
    method Checksum(t: RecordType, data: Bytestring) returns (field: Bytestring)
      requires Sealed()
      ensures field == seal.tag([t] + data)
    {
      var sum := crc.extend(typeCrc[t], data);
      assert sum == crc.Value([t] + data);
      field := EncodeFixed32(Mask(sum));
    }

    /** Emits one fragment; it must fit in the current block. */
    method EmitPhysicalRecord(t: RecordType, data: Bytestring)
      requires Valid() && Sealed()
      requires blockOffset + HEADER_SIZE + |data| <= BLOCK_SIZE
      modifies this
      ensures Valid()
      ensures file == old(file) + RecordBytes(seal, t, data)
      ensures At() == old(At()).Advance(HEADER_SIZE + |data|)
    {
      var field := Checksum(t, data);
      file := file + (field + [|data| % 256, |data| / 256, t]);
      file := file + data;
      blockOffset := blockOffset + HEADER_SIZE + |data|;
      assert file == old(file) + RecordBytes(seal, t, data);
    }

    /** Switches to a new block if the rest of this one cannot hold a header. */
    method SwitchBlockIfNeeded()
      requires Valid()
      modifies this
      ensures Valid()
      ensures At() == old(At()).Aligned()
      ensures file == old(file) + Zeros(At().at - old(At()).at)
    {
      var leftover := BLOCK_SIZE - blockOffset;
      if leftover < HEADER_SIZE {
        if leftover > 0 {
          file := file + Zeros(leftover);
        }
        blockOffset := 0;
      }
    }

    /** Emits as much of `left` as the current block holds. */
    method EmitFragment(left: Bytestring, begin: bool) returns (n: nat)
      requires Valid() && Sealed()
      modifies this
      ensures Valid()
      ensures n == Taken(old(At()), left)
      ensures file == old(file) + frame(old(At()), left, begin)
      ensures At() == NextCursor(old(At()), left)
    {
      SwitchBlockIfNeeded();
      var avail := BLOCK_SIZE - blockOffset - HEADER_SIZE;
      n := if |left| < avail then |left| else avail;
      var end := |left| == n;
      var t := if begin && end then FULL_TYPE
               else if begin then FIRST_TYPE
               else if end then LAST_TYPE
               else MIDDLE_TYPE;
      ghost var c, padding := old(At()), Zeros(At().at - old(At()).at);
      EmitPhysicalRecord(t, left[..n]);
      assert file == (old(file) + padding) + RecordBytes(seal, t, left[..n]);
      assert frame(c, left, begin) == padding + RecordBytes(seal, t, left[..n]);
    }

    /** Fragments `payload` and appends the fragments. */
    method AddEntry(payload: Bytestring)
      requires Valid() && Sealed()
      modifies this
      ensures Valid()
      ensures var w := Encode(frame, old(At()), payload, true);
              file == old(file) + w.bytes && At() == w.cursor
    {
      ghost var c, w := At(), Encode(frame, At(), payload, true);
      ghost var target := Written(file + w.bytes, w.cursor);
      var left, begin, again := payload, true, true;
      while again
        invariant Valid() && c == At()
        invariant again ==> Pending(frame, file, c, left, begin, target)
        invariant !again ==> Written(file, c) == target
        decreases again, |left|, Stalled(c)
      {
        WriteStep(frame, file, c, left, begin, target);
        var n := EmitFragment(left, begin);
        c := At();
        left, begin := left[n..], false;
        again := |left| > 0;
      }
    }
  }
}
