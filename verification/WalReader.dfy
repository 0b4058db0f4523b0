// The log reader: physical records of a file, and the entries assembled from them.
module WalReader {
  import opened Bytes
  import opened Crc32c
  import opened Coding
  import opened WalSeal
  import opened WalFormat

  /** The reader's test of a stored checksum field against a record's type and data. */
  type Test = (Bytestring, Bytestring) -> bool

  function TestOf(seal: Seal, checksum: bool): Test {
    if checksum then seal.ok else ((h: Bytestring, x: Bytestring) => true)
  }

  /** What a physical read yields: a record of some type, or `BAD_RECORD`. */
  datatype Event = Event(t: RecordType, data: Bytestring)

  const BAD: Event := Event(BAD_RECORD, [])

  /** What the unread rest of a block holds next. */
  datatype Parsed =
    | Skip                                   // a trailer: go on with the next block
    | Stop                                   // the end of the log
    | Drop                                   // damage: the rest of the block is dropped
    | Take(t: RecordType, data: Bytestring)  // a record

  /** The length field of a header. */
  function LengthField(header: Bytestring): nat
    requires |header| >= HEADER_SIZE
  {
    (header[4] as int) + 256 * (header[5] as int)
  }

  /** What every parse of a block's rest respects. */
  predicate ParsedFrom(r: Parsed, rest: Bytestring, full: bool) {
    && (|rest| < HEADER_SIZE ==> r == if full then Skip else Stop)
    && (|rest| >= HEADER_SIZE ==> !r.Skip?)
    && (full ==> !r.Stop?)
    && (r.Take? ==> HEADER_SIZE + |r.data| <= |rest|)
  }

  /**
   * Parses the unread rest of a block; `full` says that the file holds the whole
   * block, so that a record cut short cannot be a crash of the writer.
   */
  function Parse(ok: Test, rest: Bytestring, full: bool): (r: Parsed)
    ensures ParsedFrom(r, rest, full)
  {
    if |rest| < HEADER_SIZE then
      if full then Skip else Stop
    else
      var length := LengthField(rest);
      if HEADER_SIZE + length > |rest| then
        if full then Drop else Stop
      else if rest[6] > MAX_RECORD_TYPE then Drop
      else if rest[6] == ZERO_TYPE && length == 0 then Drop
      else if !ok(rest[..4], rest[6..HEADER_SIZE + length]) then Drop
      else Take(rest[6], rest[HEADER_SIZE..HEADER_SIZE + length])
  }

  /** How a reader parses a block's rest, given whether the file holds the whole block. */
  type Parser = p: (Bytestring, bool) -> Parsed |
    forall rest, full :: ParsedFrom(p(rest, full), rest, full)
    witness (rest: Bytestring, full: bool) => if full then if |rest| < HEADER_SIZE then Skip else Drop else Stop

  function ParserOf(ok: Test): Parser {
    (rest: Bytestring, full: bool) => Parse(ok, rest, full)
  }

  /** The parser of a reader for logs with this seal. */
  function LogParser(seal: Seal, checksum: bool): Parser {
    ParserOf(TestOf(seal, checksum))
  }

  function Min(a: nat, b: nat): nat {
    if a < b then a else b
  }

  /** The unread rest of the cursor's block. */
  function Rest(f: Bytestring, c: Cursor): (r: Bytestring)
    requires c.Valid() && c.at <= |f|
    ensures |r| == Min(c.end, |f|) - c.at
  {
    f[c.at..Min(c.end, |f|)]
  }

  /** The physical records a reader at a cursor meets, up to the end of the log. */
  function Events(parse: Parser, f: Bytestring, c: Cursor): (r: seq<Event>)
    requires c.Valid() && c.at <= |f|
    decreases |f| - c.at, if c.at == c.end then 1 else 0
  {
    match parse(Rest(f, c), c.end <= |f|)
    case Skip => Events(parse, f, Cursor(c.end, c.end + BLOCK_SIZE))
    case Stop => []
    case Drop => [BAD] + Events(parse, f, Cursor(Min(c.end, |f|), c.end))
    case Take(t, data) => [Event(t, data)] + Events(parse, f, c.Advance(HEADER_SIZE + |data|))
  }

  /**
   * The entries assembled from physical records. `open` holds the fragments of
   * an entry whose last fragment has not been met. A record of type `EOF_TYPE`
   * ends the log.
   */
  function Assemble(es: seq<Event>, open: Option<Bytestring>): (r: seq<Bytestring>)
    decreases |es|
  {
    if es == [] then []
    else
      var Event(t, data) := es[0];
      if t == FULL_TYPE then [data] + Assemble(es[1..], None)
      else if t == FIRST_TYPE then Assemble(es[1..], Some(data))
      else if t == MIDDLE_TYPE then
        Assemble(es[1..], if open.Some? then Some(open.value + data) else None)
      else if t == LAST_TYPE then
        if open.Some? then [open.value + data] + Assemble(es[1..], None)
        else Assemble(es[1..], None)
      else if t == EOF_TYPE then []
      else Assemble(es[1..], None)
  }

  /** The entries a reader at a cursor, between entries, still returns. */
  function EntriesFrom(parse: Parser, f: Bytestring, c: Cursor): (r: seq<Bytestring>)
    requires c.Valid() && c.at <= |f|
  {
    Assemble(Events(parse, f, c), None)
  }

  /** All the entries of a log file. */
  function Entries(parse: Parser, f: Bytestring): (r: seq<Bytestring>) {
    EntriesFrom(parse, f, START)
  }

  /** At the end of a block the reader goes on with the next. */
  lemma AtBlockEnd(parse: Parser, f: Bytestring, end: nat)
    requires end <= |f|
    ensures Events(parse, f, Cursor(end, end)) == Events(parse, f, Cursor(end, end + BLOCK_SIZE))
  {
  }

  /** Reads one log file. */
  class Reader {
    const crc: Checksum
    const checksum: bool
    const file: Bytestring
    ghost const ok: Test
    ghost const parse: Parser
    var pos: nat
    var buffer: Bytestring
    var eof: bool
    // The end of the block in the buffer, were it complete.
    ghost var blockEnd: nat

    /** `ok` is the test this reader makes, and `parse` the parser it is. */
    ghost predicate Sealed() {
      parse == ParserOf(ok) && exists seal: Seal :: seal.Implements(crc) && ok == TestOf(seal, checksum)
    }

    /** The buffer is the unread rest of a block, which is short only at the end of the file. */
    ghost predicate Valid()
      reads this
    {
      && |buffer| <= pos <= |file|
      && buffer == file[pos - |buffer|..pos]
      && (if eof then pos == |file| < blockEnd else pos == blockEnd)
      && blockEnd <= pos - |buffer| + BLOCK_SIZE
    }

    /** Where the next unread byte is. */
    ghost function At(): (c: Cursor)
      requires Valid()
      reads this
      ensures c.Valid() && c.at <= |file|
    {
      Cursor(pos - |buffer|, blockEnd)
    }

    constructor (file: Bytestring, crc: Checksum, checksum: bool, ghost seal: Seal)
      requires seal.Implements(crc)
      ensures Valid() && Sealed()
      ensures this.file == file && parse == LogParser(seal, checksum)
      ensures Events(parse, file, At()) == Events(parse, file, START)
    {
      this.crc := crc;
      this.checksum := checksum;
      this.file := file;
      this.ok := TestOf(seal, checksum);
      this.parse := LogParser(seal, checksum);
      pos := 0;
      buffer := [];
      eof := false;
      blockEnd := 0;
      new;
      AtBlockEnd(parse, file, 0);
    }

    /** Drops what is left of the buffer and reads the next block. */
    method ReadNextBlock()
      requires Valid() && !eof
      modifies this
      ensures Valid()
      ensures At() == Cursor(old(blockEnd), old(blockEnd) + BLOCK_SIZE)
      ensures eof || |buffer| == BLOCK_SIZE
    {
      var n := if pos + BLOCK_SIZE <= |file| then BLOCK_SIZE else |file| - pos;
      buffer := file[pos..pos + n];
      pos := pos + n;
      blockEnd := blockEnd + BLOCK_SIZE;
      if |buffer| < BLOCK_SIZE {
        eof := true;
      }
    }

    /** Compares the stored checksum with the computed one. */
    method ChecksumPasses(header: Bytestring, body: Bytestring) returns (passes: bool)
      requires Sealed() && |header| == 4
      ensures passes == ok(header, body)
    {
      ghost var seal: Seal :| seal.Implements(crc) && ok == TestOf(seal, checksum);
      if checksum {
        var expected := Unmask(DecodeFixed32(header));
        var actual := crc.Value(body);
        passes := actual == expected;
      } else {
        passes := true;
      }
    }

    /** Parses the record at the front of the buffer. */
    method ParseBuffer() returns (r: Parsed)
      requires Valid() && Sealed() && |buffer| >= HEADER_SIZE
      ensures r == parse(buffer, !eof)
    {
      var length := LengthField(buffer);
      if HEADER_SIZE + length > |buffer| {
        return if !eof then Drop else Stop;
      }
      if buffer[6] > MAX_RECORD_TYPE {
        return Drop;
      }
      if buffer[6] == ZERO_TYPE && length == 0 {
        return Drop;
      }
      var passes := ChecksumPasses(buffer[..4], buffer[6..HEADER_SIZE + length]);
      if !passes {
        return Drop;
      }
      return Take(buffer[6], buffer[HEADER_SIZE..HEADER_SIZE + length]);
    }

    /** Reads on until the buffer holds a header, or the log has ended. */
    method Refill() returns (end: bool)
      requires Valid()
      modifies this
      ensures Valid()
      ensures old(At()).at <= At().at
      ensures Events(parse, file, At()) == Events(parse, file, old(At()))
      ensures end ==> Events(parse, file, At()) == []
      ensures !end ==> |buffer| >= HEADER_SIZE
    {
      while |buffer| < HEADER_SIZE
        invariant Valid()
        invariant old(At()).at <= At().at
        invariant Events(parse, file, At()) == Events(parse, file, old(At()))
        decreases if HEADER_SIZE <= |buffer| then 0 else if eof then 1 else 2
      {
        assert Rest(file, At()) == buffer;
        if eof {
          return true;
        }
        ReadNextBlock();
      }
      return false;
    }

    /**
     * The next physical record, or one of type `EOF_TYPE` at the end of the log.
     * Either way a caller that stops at `EOF_TYPE` has met all events.
     */
    method ReadPhysicalRecord() returns (e: Event, ghost end: bool)
      requires Valid() && Sealed()
      modifies this
      ensures Valid()
      ensures end ==> Events(parse, file, old(At())) == [] && e == Event(EOF_TYPE, [])
      ensures !end ==> Events(parse, file, old(At())) == [e] + Events(parse, file, At())
      ensures !end ==> old(At()).at < At().at
    {
      var empty := Refill();
      if empty {
        return Event(EOF_TYPE, []), true;
      }
      assert Rest(file, At()) == buffer;
      var r := ParseBuffer();
      e, end := Consume(r);
    }

    /** Removes a parsed record from the buffer. */
    method Consume(r: Parsed) returns (e: Event, ghost end: bool)
      requires Valid()
      requires r == parse(Rest(file, At()), !eof) && !r.Skip? && buffer != []
      modifies this
      ensures Valid()
      ensures end ==> Events(parse, file, old(At())) == [] && e == Event(EOF_TYPE, [])
      ensures !end ==> Events(parse, file, old(At())) == [e] + Events(parse, file, At())
      ensures !end ==> old(At()).at < At().at
    {
      match r {
        case Take(t, data) =>
          buffer := buffer[HEADER_SIZE + |data|..];
          return Event(t, data), false;
        case Drop =>
          buffer := [];
          return BAD, false;
        case Stop =>
          buffer := [];
          return Event(EOF_TYPE, []), true;
      }
    }

    /** The next entry, if there is one. */
    method ReadEntry() returns (found: bool, entry: Bytestring)
      requires Valid() && Sealed()
      modifies this
      ensures Valid()
      ensures found ==>
                && EntriesFrom(parse, file, old(At())) == [entry] + EntriesFrom(parse, file, At())
                && old(At()).at < At().at
      ensures !found ==> EntriesFrom(parse, file, old(At())) == []
    {
      var inFragmented, scratch := false, [];
      while true
        invariant Valid()
        invariant old(At()).at <= At().at
        invariant Assemble(Events(parse, file, At()), if inFragmented then Some(scratch) else None) ==
                  EntriesFrom(parse, file, old(At()))
        decreases |file| - At().at
      {
        ghost var before := Events(parse, file, At());
        var e, end := ReadPhysicalRecord();
        ghost var after := Events(parse, file, At());
        assert !end ==> before[0] == e && before[1..] == after;
        if e.t == FULL_TYPE {
          return true, e.data;
        } else if e.t == FIRST_TYPE {
          scratch, inFragmented := e.data, true;
        } else if e.t == MIDDLE_TYPE {
          if inFragmented {
            scratch := scratch + e.data;
          }
        } else if e.t == LAST_TYPE {
          if inFragmented {
            scratch := scratch + e.data;
            return true, scratch;
          }
        } else if e.t == EOF_TYPE {
          return false, [];
        } else {
          scratch, inFragmented := [], false;
        }
      }
    }
  }

  /** Reads a log file from start to end. */
  method ReadLog(file: Bytestring, crc: Checksum, checksum: bool, ghost seal: Seal) returns (entries: seq<Bytestring>)
    requires seal.Implements(crc)
    ensures entries == Entries(LogParser(seal, checksum), file)
  {
    var reader := new Reader(file, crc, checksum, seal);
    entries := [];
    while true
      invariant reader.Valid() && reader.Sealed() && fresh(reader)
      invariant entries + EntriesFrom(reader.parse, file, reader.At()) == Entries(LogParser(seal, checksum), file)
      decreases |file| - reader.At().at
    {
      var found, entry := reader.ReadEntry();
      if !found {
        return;
      }
      entries := entries + [entry];
    }
  }
}
