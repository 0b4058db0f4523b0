// What a reader gets back from what a writer wrote.
module WalTheorems {
  import opened Bytes
  import opened Coding
  import opened WalSeal
  import opened WalFormat
  import opened WalReader

  /** `bytes` stands in `f` at offset `at`. */
  ghost predicate Holds(f: Bytestring, at: nat, bytes: Bytestring) {
    at + |bytes| <= |f| && f[at..at + |bytes|] == bytes
  }

  /** `f` ends inside `bytes`, which starts at offset `at`. */
  ghost predicate Cut(f: Bytestring, at: nat, bytes: Bytestring) {
    at <= |f| < at + |bytes| && f[at..] == bytes[..|f| - at]
  }

  lemma {:induction false} HoldsSplit(f: Bytestring, at: nat, a: Bytestring, b: Bytestring)
    requires Holds(f, at, a + b)
    ensures Holds(f, at, a) && Holds(f, at + |a|, b)
  {
    var ab := f[at..at + |a + b|];
    assert ab[..|a|] == a && ab[|a|..] == b;
    assert f[at..at + |a|] == ab[..|a|];
    assert f[at + |a|..at + |a| + |b|] == ab[|a|..];
  }

  lemma {:induction false} CutSplit(f: Bytestring, at: nat, a: Bytestring, b: Bytestring)
    requires Cut(f, at, a + b)
    ensures |f| < at + |a| ==> Cut(f, at, a)
    ensures |f| >= at + |a| ==> Holds(f, at, a) && Cut(f, at + |a|, b)
  {
    var ab := a + b;
    if |f| < at + |a| {
      assert ab[..|f| - at] == a[..|f| - at];
    } else {
      var r := f[at..];
      assert r == ab[..|f| - at];
      assert r[..|a|] == a && r[|a|..] == b[..|f| - at - |a|];
      assert f[at..at + |a|] == r[..|a|] && f[at + |a|..] == r[|a|..];
    }
  }

  lemma {:induction false} PrefixSplit(f: Bytestring, at: nat, a: Bytestring, b: Bytestring)
    requires at + |a| <= |f| <= at + |a| + |b| && f[at..] == (a + b)[..|f| - at]
    ensures Holds(f, at, a) && f[at + |a|..] == b[..|f| - at - |a|]
  {
    var r := f[at..];
    assert r[..|a|] == a && r[|a|..] == b[..|f| - at - |a|];
    assert f[at..at + |a|] == r[..|a|] && f[at + |a|..] == r[|a|..];
  }

  lemma {:induction false} ParseRecord(ok: Test, seal: Seal, t: RecordType, data: Bytestring, more: Bytestring, full: bool)
    requires (forall x {:trigger seal.tag(x)} :: |seal.tag(x)| == 4 && ok(seal.tag(x), x)) && t != ZERO_TYPE && |data| <= 0xffff
    ensures Parse(ok, RecordBytes(seal, t, data) + more, full) == Take(t, data)
  {
    var x := [t] + data;
    var rest := RecordBytes(seal, t, data) + more;
    assert |seal.tag(x)| == 4;
    assert rest[..4] == seal.tag(x);
    assert LengthField(rest) == |data|;
    assert rest[6..HEADER_SIZE + |data|] == x;
    assert rest[HEADER_SIZE..HEADER_SIZE + |data|] == data;
  }

  lemma ParseCut(ok: Test, seal: Seal, t: RecordType, data: Bytestring, m: nat)
    requires (forall x {:trigger seal.tag(x)} :: |seal.tag(x)| == 4 && ok(seal.tag(x), x)) && |data| <= 0xffff && m < HEADER_SIZE + |data|
    ensures |RecordBytes(seal, t, data)| == HEADER_SIZE + |data|
    ensures Parse(ok, RecordBytes(seal, t, data)[..m], false) == Stop
  {
    var x := [t] + data;
    var rest := RecordBytes(seal, t, data);
    assert |seal.tag(x)| == 4;
    if m >= HEADER_SIZE {
      assert LengthField(rest[..m]) == |data|;
    }
  }

  /** Trailers carry no records. */
  lemma {:induction false} SkipTrailer(parse: Parser, f: Bytestring, c: Cursor)
    requires c.Valid() && c.at <= |f|
    ensures c.Aligned().at <= |f| ==> Events(parse, f, c) == Events(parse, f, c.Aligned())
    ensures c.Aligned().at > |f| ==> Events(parse, f, c) == []
  {
  }

  /** At the end of the file there are no records. */
  lemma NoMoreEvents(parse: Parser, f: Bytestring, c: Cursor)
    requires c.Valid() && c.at == |f|
    ensures Events(parse, f, c) == []
  {
    SkipTrailer(parse, f, c);
  }

  /** A parser gets the records back that a writer with this seal wrote; what cuts a record short ends the log. */
  ghost predicate ParsesRecords(parse: Parser, seal: Seal) {
    && (forall t: RecordType, data, more, full {:trigger parse(RecordBytes(seal, t, data) + more, full)} |
          FULL_TYPE <= t <= LAST_TYPE && |data| <= 0xffff ::
          parse(RecordBytes(seal, t, data) + more, full) == Take(t, data))
    && (forall t: RecordType, data, m: nat {:trigger RecordBytes(seal, t, data)[..m]} |
          |data| <= 0xffff && m < HEADER_SIZE + |data| && m <= |RecordBytes(seal, t, data)| ::
          parse(RecordBytes(seal, t, data)[..m], false) == Stop)
  }

  lemma {:induction false} LogParserParses(seal: Seal, checksum: bool)
    requires seal.Lawful()
    ensures ParsesRecords(LogParser(seal, checksum), seal)
  {
    var ok := TestOf(seal, checksum);
    forall t: RecordType, data, more, full | FULL_TYPE <= t <= LAST_TYPE && |data| <= 0xffff
      ensures LogParser(seal, checksum)(RecordBytes(seal, t, data) + more, full) == Take(t, data)
    {
      ParseRecord(ok, seal, t, data, more, full);
    }
    forall t: RecordType, data, m: nat |
      |data| <= 0xffff && m < HEADER_SIZE + |data| && m <= |RecordBytes(seal, t, data)|
      ensures LogParser(seal, checksum)(RecordBytes(seal, t, data)[..m], false) == Stop
    {
      ParseCut(ok, seal, t, data, m);
    }
  }

  lemma RestStartsWith(f: Bytestring, c: Cursor, record: Bytestring)
    requires c.Valid() && Holds(f, c.at, record) && c.at + |record| <= c.end
    ensures Rest(f, c) == record + Rest(f, c)[|record|..]
  {
    var rest := Rest(f, c);
    assert rest[..|record|] == f[c.at..c.at + |record|];
    assert rest == rest[..|record|] + rest[|record|..];
  }

  lemma {:induction false} ReadFragment(parse: Parser, seal: Seal, f: Bytestring, c: Cursor, payload: Bytestring, begin: bool)
    requires ParsesRecords(parse, seal) && seal.Lawful()
    requires c.Valid() && c.at + HEADER_SIZE <= c.end
    requires Holds(f, c.at, Fragment(seal, c, payload, begin))
    ensures var n := Fits(c, payload);
            && c.at + HEADER_SIZE + n <= |f|
            && Events(parse, f, c) ==
               [Event(FragmentType(begin, n == |payload|), payload[..n])] + Events(parse, f, c.Advance(HEADER_SIZE + n))
  {
    var n := Fits(c, payload);
    var t := FragmentType(begin, n == |payload|);
    var rest := Rest(f, c);
    var record := RecordBytes(seal, t, payload[..n]);
    RestStartsWith(f, c, record);
    assert parse(record + rest[|record|..], c.end <= |f|) == Take(t, payload[..n]);
  }

  lemma {:induction false} ReadCutFragment(parse: Parser, seal: Seal, f: Bytestring, c: Cursor, payload: Bytestring, begin: bool)
    requires ParsesRecords(parse, seal) && seal.Lawful()
    requires c.Valid() && c.at + HEADER_SIZE <= c.end
    requires Cut(f, c.at, Fragment(seal, c, payload, begin))
    ensures Events(parse, f, c) == []
  {
    var n := Fits(c, payload);
    var t := FragmentType(begin, n == |payload|);
    var m := |f| - c.at;
    assert Rest(f, c) == f[c.at..] == RecordBytes(seal, t, payload[..n])[..m];
  }

  /** What `payload`, read after the fragments in `open`, completes. */
  function Completed(begin: bool, open: Option<Bytestring>, payload: Bytestring): seq<Bytestring> {
    if begin then [payload] else if open.Some? then [open.value + payload] else []
  }

  /** What is open after reading a first part of an entry. */
  function Opened(begin: bool, open: Option<Bytestring>, part: Bytestring): Option<Bytestring> {
    if begin then Some(part) else if open.Some? then Some(open.value + part) else None
  }

  lemma CompletedInParts(begin: bool, open: Option<Bytestring>, payload: Bytestring, n: nat)
    requires n <= |payload|
    ensures Completed(false, Opened(begin, open, payload[..n]), payload[n..]) == Completed(begin, open, payload)
  {
    assert payload[..n] + payload[n..] == payload;
    if !begin && open.Some? {
      assert open.value + payload[..n] + payload[n..] == open.value + payload;
    }
  }

  lemma AssembleLast(es: seq<Event>, e: Event, begin: bool, open: Option<Bytestring>)
    requires e.t == FragmentType(begin, true)
    ensures Assemble([e] + es, open) == Completed(begin, open, e.data) + Assemble(es, None)
  {
    assert ([e] + es)[1..] == es;
  }

  lemma {:induction false} ReadHead(parse: Parser, seal: Seal, f: Bytestring, c: Cursor, payload: Bytestring, begin: bool)
    requires ParsesRecords(parse, seal) && seal.Lawful() && c.Valid()
    requires Holds(f, c.at, Head(seal, c, payload, begin))
    ensures var n := Taken(c, payload);
            && NextCursor(c, payload).at <= |f|
            && Events(parse, f, c) ==
               [Event(FragmentType(begin, n == |payload|), payload[..n])] + Events(parse, f, NextCursor(c, payload))
  {
    var a := c.Aligned();
    HoldsSplit(f, c.at, Zeros(a.at - c.at), Fragment(seal, a, payload, begin));
    assert a.at <= |f|;
    ReadFragment(parse, seal, f, a, payload, begin);
    assert Events(parse, f, c) == Events(parse, f, a) by {
      SkipTrailer(parse, f, c);
    }
  }

  lemma {:induction false} ReadCutHead(parse: Parser, seal: Seal, f: Bytestring, c: Cursor, payload: Bytestring, begin: bool)
    requires ParsesRecords(parse, seal) && seal.Lawful() && c.Valid()
    requires Cut(f, c.at, Head(seal, c, payload, begin))
    ensures Events(parse, f, c) == []
  {
    var a := c.Aligned();
    SkipTrailer(parse, f, c);
    CutSplit(f, c.at, Zeros(a.at - c.at), Fragment(seal, a, payload, begin));
    if a.at <= |f| {
      ReadCutFragment(parse, seal, f, a, payload, begin);
    }
  }

  /** What a parser must make of one piece of an entry, whole or cut short. */
  ghost predicate ReadsHead(parse: Parser, f: Bytestring, c: Cursor, payload: Bytestring, begin: bool, head: Bytestring)
    requires c.Valid() && c.at <= |f|
  {
    var n, next := Taken(c, payload), NextCursor(c, payload);
    && (Holds(f, c.at, head) ==>
          && next.at <= |f|
          && Events(parse, f, c) == [Event(FragmentType(begin, n == |payload|), payload[..n])] + Events(parse, f, next))
    && (Cut(f, c.at, head) ==> Events(parse, f, c) == [])
  }

  /** The parser reads back, in any file, every piece the framer writes; what cuts a piece short ends the log. */
  ghost predicate Accepts(parse: Parser, frame: Framer) {
    forall f, c: Cursor, payload, begin {:trigger Events(parse, f, c), frame(c, payload, begin)} |
      c.Valid() && c.at <= |f| :: ReadsHead(parse, f, c, payload, begin, frame(c, payload, begin))
  }

  /** The log reader reads back what the log writer writes. */
  lemma {:induction false} LogParserAccepts(seal: Seal, checksum: bool)
    requires seal.Lawful()
    ensures Accepts(LogParser(seal, checksum), FramerOf(seal))
  {
    var parse, frame := LogParser(seal, checksum), FramerOf(seal);
    LogParserParses(seal, checksum);
    forall f, c: Cursor, payload, begin | c.Valid() && c.at <= |f|
      ensures ReadsHead(parse, f, c, payload, begin, frame(c, payload, begin))
    {
      var head := Head(seal, c, payload, begin);
      if Holds(f, c.at, head) {
        ReadHead(parse, seal, f, c, payload, begin);
      }
      if Cut(f, c.at, head) {
        ReadCutHead(parse, seal, f, c, payload, begin);
      }
    }
  }

  /** One more fragment of an entry that has more to come. */
  lemma {:induction false} ReadPart(
    parse: Parser, frame: Framer, f: Bytestring, c: Cursor, payload: Bytestring, begin: bool, open: Option<Bytestring>)
    requires Accepts(parse, frame) && c.Valid()
    requires Holds(f, c.at, frame(c, payload, begin)) && Taken(c, payload) < |payload|
    ensures NextCursor(c, payload).at <= |f|
    ensures Assemble(Events(parse, f, c), open) ==
            Assemble(Events(parse, f, NextCursor(c, payload)), Opened(begin, open, payload[..Taken(c, payload)]))
  {
    assert ReadsHead(parse, f, c, payload, begin, frame(c, payload, begin));
    var part := payload[..Taken(c, payload)];
  }

  /** The last fragment of an entry. */
  lemma {:induction false} ReadLast(
    parse: Parser, frame: Framer, f: Bytestring, c: Cursor, payload: Bytestring, begin: bool, open: Option<Bytestring>)
    requires Accepts(parse, frame) && c.Valid()
    requires Holds(f, c.at, frame(c, payload, begin)) && Taken(c, payload) == |payload|
    ensures NextCursor(c, payload).at <= |f|
    ensures Assemble(Events(parse, f, c), open) ==
            Completed(begin, open, payload) + Assemble(Events(parse, f, NextCursor(c, payload)), None)
  {
    assert ReadsHead(parse, f, c, payload, begin, frame(c, payload, begin));
    assert payload[..|payload|] == payload;
    AssembleLast(Events(parse, f, NextCursor(c, payload)), Event(FragmentType(begin, true), payload), begin, open);
  }

  /**
   * Reading (the rest of) an encoded entry, whatever the reader has open, yields
   * the entry and leaves the reader between entries. A rest whose beginning the
   * reader has not seen yields nothing.
   */
  lemma {:induction false} ReadEncoded(
    parse: Parser, frame: Framer, f: Bytestring, c: Cursor, payload: Bytestring, begin: bool, open: Option<Bytestring>)
    requires Accepts(parse, frame) && c.Valid()
    requires Holds(f, c.at, Encode(frame, c, payload, begin).bytes)
    ensures var w := Encode(frame, c, payload, begin);
            && w.cursor.at <= |f|
            && Assemble(Events(parse, f, c), open) ==
               Completed(begin, open, payload) + Assemble(Events(parse, f, w.cursor), None)
    decreases |payload|, Stalled(c)
  {
    var n := Taken(c, payload);
    if n == |payload| {
      ReadLast(parse, frame, f, c, payload, begin, open);
    } else {
      var next := NextCursor(c, payload);
      HoldsSplit(f, c.at, frame(c, payload, begin), Encode(frame, next, payload[n..], false).bytes);
      ReadPart(parse, frame, f, c, payload, begin, open);
      ReadEncoded(parse, frame, f, next, payload[n..], false, Opened(begin, open, payload[..n]));
      CompletedInParts(begin, open, payload, n);
    }
  }

  /** Reading an entry that the file cuts short yields nothing. */
  lemma {:induction false} ReadCutEncoded(
    parse: Parser, frame: Framer, f: Bytestring, c: Cursor, payload: Bytestring, begin: bool, open: Option<Bytestring>)
    requires Accepts(parse, frame) && c.Valid()
    requires Cut(f, c.at, Encode(frame, c, payload, begin).bytes)
    ensures Assemble(Events(parse, f, c), open) == []
    decreases |payload|, Stalled(c)
  {
    var n := Taken(c, payload);
    if n == |payload| {
      assert ReadsHead(parse, f, c, payload, begin, frame(c, payload, begin));
    } else {
      var next := NextCursor(c, payload);
      CutSplit(f, c.at, frame(c, payload, begin), Encode(frame, next, payload[n..], false).bytes);
      if |f| < next.at {
        assert ReadsHead(parse, f, c, payload, begin, frame(c, payload, begin));
      } else {
        ReadPart(parse, frame, f, c, payload, begin, open);
        ReadCutEncoded(parse, frame, f, next, payload[n..], false, Opened(begin, open, payload[..n]));
      }
    }
  }

  /** What reading gives back of one entry written by `encode`: all of it or, if the file cuts it short, nothing. */
  ghost predicate ReadsBack(parse: Parser, f: Bytestring, encode: Encoder, c: Cursor, e: Bytestring)
    requires c.Valid()
  {
    var w := encode(c, e);
    && w.cursor.Valid() && w.cursor.at == c.at + |w.bytes|
    && (Holds(f, c.at, w.bytes) ==> EntriesFrom(parse, f, c) == [e] + EntriesFrom(parse, f, w.cursor))
    && (Cut(f, c.at, w.bytes) ==> EntriesFrom(parse, f, c) == [])
  }

  ghost predicate AlwaysReadsBack(parse: Parser, f: Bytestring, encode: Encoder) {
    forall c: Cursor, e {:trigger encode(c, e)} | c.Valid() :: ReadsBack(parse, f, encode, c, e)
  }

  lemma {:induction false} EntryReadsBack(parse: Parser, frame: Framer, f: Bytestring, c: Cursor, e: Bytestring)
    requires Accepts(parse, frame) && c.Valid()
    ensures ReadsBack(parse, f, EntryEncoder(frame), c, e)
  {
    var w := Encode(frame, c, e, true);
    assert EntryEncoder(frame)(c, e) == w;
    if Holds(f, c.at, w.bytes) {
      ReadEncoded(parse, frame, f, c, e, true, None);
    }
    if Cut(f, c.at, w.bytes) {
      ReadCutEncoded(parse, frame, f, c, e, true, None);
    }
  }

  lemma {:induction false} EntriesReadBack(parse: Parser, frame: Framer, f: Bytestring)
    requires Accepts(parse, frame)
    ensures AlwaysReadsBack(parse, f, EntryEncoder(frame))
  {
    forall c: Cursor, e | c.Valid()
      ensures ReadsBack(parse, f, EntryEncoder(frame), c, e)
    {
      EntryReadsBack(parse, frame, f, c, e);
    }
  }

  /** The size of the first `k` entries, written from `c` on. */
  function SizeOf(encode: Encoder, c: Cursor, entries: seq<Bytestring>, k: nat): nat
    requires k <= |entries|
  {
    |WriteFirst(encode, c, entries, k).bytes|
  }

  /** Exactly the first `k` of these entries lie wholly within the first `size` bytes. */
  ghost predicate WholeEntries(encode: Encoder, c: Cursor, entries: seq<Bytestring>, size: nat, k: nat) {
    && k <= |entries|
    && SizeOf(encode, c, entries, k) <= size
    && (k < |entries| ==> size < SizeOf(encode, c, entries, k + 1))
  }

  lemma SizeOfStep(encode: Encoder, c: Cursor, entries: seq<Bytestring>, k: nat)
    requires 0 < k <= |entries|
    ensures var w := encode(c, entries[0]);
            SizeOf(encode, c, entries, k) == |w.bytes| + SizeOf(encode, w.cursor, entries[1..], k - 1)
  {
    WriteFirstIs(encode, c, entries, k);
    WriteFirstIs(encode, encode(c, entries[0]).cursor, entries[1..], k - 1);
    assert entries[..k][0] == entries[0];
    assert entries[..k][1..] == entries[1..][..k - 1];
  }

  lemma WholeEntriesStep(encode: Encoder, c: Cursor, entries: seq<Bytestring>, size: nat, k: nat)
    requires |entries| > 0 && |encode(c, entries[0]).bytes| <= size
    requires var w := encode(c, entries[0]);
             WholeEntries(encode, w.cursor, entries[1..], size - |w.bytes|, k)
    ensures WholeEntries(encode, c, entries, size, k + 1)
  {
    SizeOfStep(encode, c, entries, k + 1);
    if k + 1 < |entries| {
      SizeOfStep(encode, c, entries, k + 2);
    }
  }

  /** A file that ends within the log of `entries` yields the entries that are wholly there. */
  lemma {:induction false} ReadFrom(parse: Parser, f: Bytestring, encode: Encoder, c: Cursor, entries: seq<Bytestring>)
    returns (k: nat)
    requires AlwaysReadsBack(parse, f, encode) && c.Valid() && c.at <= |f|
    requires var w := WriteAll(encode, c, entries);
             |f| <= c.at + |w.bytes| && f[c.at..] == w.bytes[..|f| - c.at]
    ensures WholeEntries(encode, c, entries, |f| - c.at, k)
    ensures EntriesFrom(parse, f, c) == entries[..k]
    decreases |entries|
  {
    if entries == [] {
      k := 0;
      NoMoreEvents(parse, f, c);
    } else {
      var head := encode(c, entries[0]);
      assert ReadsBack(parse, f, encode, c, entries[0]);
      var tail := WriteAll(encode, head.cursor, entries[1..]);
      if |f| < head.cursor.at {
        k := 0;
        SizeOfStep(encode, c, entries, 1);
        assert (head.bytes + tail.bytes)[..|f| - c.at] == head.bytes[..|f| - c.at];
      } else {
        PrefixSplit(f, c.at, head.bytes, tail.bytes);
        var j := ReadFrom(parse, f, encode, head.cursor, entries[1..]);
        k := j + 1;
        WholeEntriesStep(encode, c, entries, |f| - c.at, j);
        assert [entries[0]] + entries[1..][..j] == entries[..k];
      }
    }
  }

  /**
   * Reading any prefix of a log returns exactly the entries whose last fragment
   * lies wholly in the prefix, in order.
   */
  lemma {:induction false} ReadPrefix(parse: Parser, frame: Framer, entries: seq<Bytestring>, size: nat) returns (k: nat)
    requires Accepts(parse, frame) && size <= |Log(frame, entries).bytes|
    ensures k <= |entries|
    ensures |LogTo(frame, entries, k).bytes| <= size
    ensures k < |entries| ==> size < |LogTo(frame, entries, k + 1).bytes|
    ensures Entries(parse, Log(frame, entries).bytes[..size]) == entries[..k]
  {
    var log := Log(frame, entries).bytes;
    var f := log[..size];
    LogIsWriteAll(frame, entries);
    EntriesReadBack(parse, frame, f);
    assert f[START.at..] == log[..|f| - START.at];
    k := ReadFrom(parse, f, EntryEncoder(frame), START, entries);
  }

  /** Reading a whole log returns all its entries. */
  lemma {:induction false} ReadAll(parse: Parser, frame: Framer, entries: seq<Bytestring>)
    requires Accepts(parse, frame)
    ensures Entries(parse, Log(frame, entries).bytes) == entries
  {
    var log := Log(frame, entries).bytes;
    var k := ReadPrefix(parse, frame, entries, |log|);
    assert log[..|log|] == log;
    NotBeyond(frame, entries, k);
    assert entries[..|entries|] == entries;
  }

  /** No part of the entries is longer than the log. */
  lemma {:induction false} NotBeyond(frame: Framer, entries: seq<Bytestring>, k: nat)
    ensures k < |entries| ==> |LogTo(frame, entries, k + 1).bytes| <= |Log(frame, entries).bytes|
  {
    if k < |entries| {
      LogIsWriteAll(frame, entries);
      WriteFirstSplit(EntryEncoder(frame), START, entries, k + 1);
    }
  }
}
