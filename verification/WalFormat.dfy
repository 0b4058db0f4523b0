// The on-disk format of the write-ahead log: entries split into typed,
// checksummed fragments that never cross a 32 KiB block boundary.
module WalFormat {
  import opened Bytes
  import opened WalSeal

  const BLOCK_SIZE: nat := 32768

  const HEADER_SIZE: nat := 7

  type RecordType = x: int | 0 <= x <= 6

  const ZERO_TYPE: RecordType := 0
  const FULL_TYPE: RecordType := 1
  const FIRST_TYPE: RecordType := 2
  const MIDDLE_TYPE: RecordType := 3
  const LAST_TYPE: RecordType := 4
  const EOF_TYPE: RecordType := 5
  const BAD_RECORD: RecordType := 6
  const MAX_RECORD_TYPE: RecordType := BAD_RECORD

  /** Checksum (4 bytes), length (2 bytes), type (1 byte), data. */
  function RecordBytes(seal: Seal, t: RecordType, data: Bytestring): (r: Bytestring)
    requires |data| <= 0xffff
    ensures seal.Lawful() ==> |r| == HEADER_SIZE + |data|
  {
    seal.tag([t] + data) + [|data| % 256, |data| / 256, t] + data
  }

  /** An offset in a log file, and the end of the block it lies in (or ends). */
  datatype Cursor = Cursor(at: nat, end: nat) {
    ghost predicate Valid() {
      at <= end <= at + BLOCK_SIZE
    }

    /** Where the next fragment starts: a rest too short for a header is skipped. */
    function Aligned(): (c: Cursor)
      ensures Valid() ==> c.Valid() && at <= c.at
      ensures Valid() ==> c.at + HEADER_SIZE <= c.end
    {
      if at + HEADER_SIZE <= end then this else Cursor(end, end + BLOCK_SIZE)
    }

    /** This cursor moved `n` bytes on in its block. */
    function Advance(n: nat): Cursor {
      Cursor(at + n, end)
    }
  }

  /** How many bytes of `payload` a fragment at an aligned cursor takes. */
  function Fits(c: Cursor, payload: Bytestring): (n: nat)
    requires c.at + HEADER_SIZE <= c.end
    ensures n <= |payload|
  {
    var room := c.end - c.at - HEADER_SIZE;
    if |payload| < room then |payload| else room
  }

  function FragmentType(begin: bool, end: bool): RecordType {
    if begin && end then FULL_TYPE
    else if begin then FIRST_TYPE
    else if end then LAST_TYPE
    else MIDDLE_TYPE
  }

  /** The fragment written for `payload` at an aligned cursor. */
  function Fragment(seal: Seal, c: Cursor, payload: Bytestring, begin: bool): (r: Bytestring)
    requires c.Valid() && c.at + HEADER_SIZE <= c.end
    ensures seal.Lawful() ==> |r| == HEADER_SIZE + Fits(c, payload)
  {
    var n := Fits(c, payload);
    RecordBytes(seal, FragmentType(begin, n == |payload|), payload[..n])
  }

  /** How many bytes of `payload` the next fragment takes. */
  function Taken(c: Cursor, payload: Bytestring): (n: nat)
    requires c.Valid()
    ensures n <= |payload|
    ensures n == 0 && |payload| > 0 ==> Stalled(NextCursor(c, payload)) < Stalled(c)
  {
    Fits(c.Aligned(), payload)
  }

  /** The cursor after the next fragment of `payload`. */
  function NextCursor(c: Cursor, payload: Bytestring): (r: Cursor)
    requires c.Valid()
    ensures r.Valid()
    ensures r.at >= c.at + HEADER_SIZE
  {
    var a := c.Aligned();
    a.Advance(HEADER_SIZE + Fits(a, payload))
  }

  /** 1 if the next fragment at `c` has no room for a single byte. */
  function Stalled(c: Cursor): nat {
    if c.at + HEADER_SIZE == c.end then 1 else 0
  }

  /** The zero fill, if any, and the fragment written next for `payload`. */
  function Head(seal: Seal, c: Cursor, payload: Bytestring, begin: bool): (r: Bytestring)
    requires c.Valid()
    ensures seal.Lawful() ==> c.at + |r| == NextCursor(c, payload).at
  {
    var a := c.Aligned();
    Zeros(a.at - c.at) + Fragment(seal, a, payload, begin)
  }

  ghost predicate HeadLength(c: Cursor, payload: Bytestring, head: Bytestring) {
    c.Valid() ==> c.at + |head| == NextCursor(c, payload).at
  }

  /** How the next piece of an entry is written: the bytes end where the next cursor is. */
  type Framer = h: (Cursor, Bytestring, bool) -> Bytestring |
    forall c, payload, begin :: HeadLength(c, payload, h(c, payload, begin))
    ghost witness (c: Cursor, payload: Bytestring, begin: bool) =>
      if c.Valid() then Zeros(NextCursor(c, payload).at - c.at) else []

  /** The writer's framing of entries with a seal. */
  function FramerOf(seal: Seal): Framer
    requires seal.Lawful()
  {
    (c: Cursor, payload: Bytestring, begin: bool) =>
      if c.at <= c.end <= c.at + BLOCK_SIZE then Head(seal, c, payload, begin) else []
  }

  /** Bytes written to the log and where they leave the writer. */
  datatype Written = Written(bytes: Bytestring, cursor: Cursor)

  /** All that is written for (the rest of) an entry at a cursor. */
  function Encode(frame: Framer, c: Cursor, payload: Bytestring, begin: bool): (w: Written)
    requires c.Valid()
    ensures w.cursor.Valid()
    ensures w.cursor.at == c.at + |w.bytes| && |w.bytes| >= HEADER_SIZE
    decreases |payload|, Stalled(c)
  {
    var n, head, next := Taken(c, payload), frame(c, payload, begin), NextCursor(c, payload);
    if n == |payload| then Written(head, next)
    else
      var tail := Encode(frame, next, payload[n..], false);
      Written(head + tail.bytes, tail.cursor)
  }

  /** Writing (the rest of) an entry to `file` at `c` leads to `target`. */
  ghost predicate Pending(frame: Framer, file: Bytestring, c: Cursor, left: Bytestring, begin: bool, target: Written)
    requires c.Valid()
  {
    var w := Encode(frame, c, left, begin);
    Written(file + w.bytes, w.cursor) == target
  }

  /** Writing one fragment of what is left of an entry keeps the final contents in reach. */
  lemma {:induction false} WriteStep(frame: Framer, file: Bytestring, c: Cursor, left: Bytestring, begin: bool, target: Written)
    requires c.Valid() && Pending(frame, file, c, left, begin, target)
    ensures var n, file', next := Taken(c, left), file + frame(c, left, begin), NextCursor(c, left);
            if n == |left| then Written(file', next) == target
            else Pending(frame, file', next, left[n..], false, target)
  {
    var n, head, next := Taken(c, left), frame(c, left, begin), NextCursor(c, left);
    if n < |left| {
      var v := Encode(frame, next, left[n..], false);
      assert file + (head + v.bytes) == (file + head) + v.bytes;
    }
  }

  type Encoder = (Cursor, Bytestring) -> Written

  /** The entries one after another, each encoded where it starts. */
  function WriteAll(encode: Encoder, c: Cursor, entries: seq<Bytestring>): (w: Written)
    decreases |entries|
  {
    if entries == [] then Written([], c)
    else
      var head := encode(c, entries[0]);
      var tail := WriteAll(encode, head.cursor, entries[1..]);
      Written(head.bytes + tail.bytes, tail.cursor)
  }

  /** The writer's encoding of a whole entry. */
  function EntryEncoder(frame: Framer): Encoder {
    (c: Cursor, e: Bytestring) => if c.at <= c.end <= c.at + BLOCK_SIZE then Encode(frame, c, e, true) else Written([], c)
  }

  const START := Cursor(0, BLOCK_SIZE)

  lemma {:induction false} WriteAllConcat(encode: Encoder, c: Cursor, a: seq<Bytestring>, b: seq<Bytestring>)
    ensures var w := WriteAll(encode, c, a);
            var v := WriteAll(encode, w.cursor, b);
            WriteAll(encode, c, a + b) == Written(w.bytes + v.bytes, v.cursor)
    decreases |a|
  {
    if a == [] {
      assert a + b == b;
    } else {
      assert (a + b)[1..] == a[1..] + b;
      WriteAllConcat(encode, encode(c, a[0]).cursor, a[1..], b);
    }
  }

  /** The first `k` entries one after another. */
  function WriteFirst(encode: Encoder, c: Cursor, entries: seq<Bytestring>, k: nat): (w: Written)
    requires k <= |entries|
    decreases k
  {
    if k == 0 then Written([], c)
    else
      var head := WriteFirst(encode, c, entries, k - 1);
      var last := encode(head.cursor, entries[k - 1]);
      Written(head.bytes + last.bytes, last.cursor)
  }

  lemma {:induction false} WriteFirstIs(encode: Encoder, c: Cursor, entries: seq<Bytestring>, k: nat)
    requires k <= |entries|
    ensures WriteFirst(encode, c, entries, k) == WriteAll(encode, c, entries[..k])
    decreases k
  {
    if k > 0 {
      WriteFirstIs(encode, c, entries, k - 1);
      WriteOneMore(encode, c, entries[..k - 1], entries[k - 1], entries[..k]);
    }
  }

  lemma WriteOneMore(encode: Encoder, c: Cursor, a: seq<Bytestring>, e: Bytestring, all: seq<Bytestring>)
    requires all == a + [e]
    ensures var w := WriteAll(encode, c, a);
            var v := encode(w.cursor, e);
            WriteAll(encode, c, all) == Written(w.bytes + v.bytes, v.cursor)
  {
    WriteAllConcat(encode, c, a, [e]);
    var one: seq<Bytestring> := [e];
    assert one[1..] == [];
  }

  /** What is written for all entries begins with what is written for the first `k`. */
  lemma WriteFirstSplit(encode: Encoder, c: Cursor, entries: seq<Bytestring>, k: nat)
    requires k <= |entries|
    ensures var w := WriteFirst(encode, c, entries, k);
            WriteAll(encode, c, entries).bytes == w.bytes + WriteAll(encode, w.cursor, entries[k..]).bytes
  {
    WriteFirstIs(encode, c, entries, k);
    WriteTwo(encode, c, entries[..k], entries[k..], entries);
  }

  lemma WriteTwo(encode: Encoder, c: Cursor, a: seq<Bytestring>, b: seq<Bytestring>, all: seq<Bytestring>)
    requires all == a + b
    ensures var w := WriteAll(encode, c, a);
            WriteAll(encode, c, all).bytes == w.bytes + WriteAll(encode, w.cursor, b).bytes
  {
    WriteAllConcat(encode, c, a, b);
  }

  /** The log of the first `k` entries. */
  function LogTo(frame: Framer, entries: seq<Bytestring>, k: nat): (w: Written)
    requires k <= |entries|
  {
    WriteFirst(EntryEncoder(frame), START, entries, k)
  }

  /** The log holding `entries` and where it leaves the writer. */
  function Log(frame: Framer, entries: seq<Bytestring>): (w: Written) {
    LogTo(frame, entries, |entries|)
  }

  lemma {:induction false} LogIsWriteAll(frame: Framer, entries: seq<Bytestring>)
    ensures Log(frame, entries) == WriteAll(EntryEncoder(frame), START, entries)
  {
    WriteFirstIs(EntryEncoder(frame), START, entries, |entries|);
    assert entries[..|entries|] == entries;
  }

  lemma {:induction false} LogToEnd(frame: Framer, entries: seq<Bytestring>, k: nat)
    requires k <= |entries|
    ensures LogTo(frame, entries, k).cursor.Valid() && LogTo(frame, entries, k).cursor.at == |LogTo(frame, entries, k).bytes|
    decreases k
  {
    if k > 0 {
      LogToEnd(frame, entries, k - 1);
    }
  }

  /** The log up to entry `k` and the next one. */
  lemma {:induction false} LogNext(frame: Framer, entries: seq<Bytestring>, k: nat)
    requires k < |entries|
    ensures var w := LogTo(frame, entries, k);
            && w.cursor.Valid() && w.cursor.at == |w.bytes|
            && var v := Encode(frame, w.cursor, entries[k], true);
            && LogTo(frame, entries, k + 1) == Written(w.bytes + v.bytes, v.cursor)
            && v.cursor.at == |w.bytes| + |v.bytes|
  {
    LogToEnd(frame, entries, k);
  }
}
