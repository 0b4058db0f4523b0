// What a reader returns from an arbitrary file, and from a log with one damaged block.
module WalDamage {
  import opened Bytes
  import opened Coding
  import opened Crc32c
  import opened WalSeal
  import opened WalFormat
  import opened WalReader
  import opened WalTheorems

  // ---------------------------------------------------------------- arbitrary files

  /** The data of consecutive records. */
  function Data(es: seq<Event>): Bytestring {
    if es == [] then [] else Data(es[..|es| - 1]) + es[|es| - 1].data
  }

  datatype Span = Span(lo: nat, hi: nat)

  /** The records at `lo..hi` begin with FIRST and go on with MIDDLE. */
  ghost predicate OpenRun(es: seq<Event>, lo: nat, hi: nat) {
    && lo < hi <= |es|
    && es[lo].t == FIRST_TYPE
    && (forall j | lo < j < hi :: es[j].t == MIDDLE_TYPE)
  }

  /** `e` is one FULL record, or an uninterrupted FIRST, MIDDLE*, LAST run. */
  ghost predicate IsRun(es: seq<Event>, s: Span, e: Bytestring) {
    && s.lo < s.hi <= |es|
    && e == Data(es[s.lo..s.hi])
    && (if s.hi == s.lo + 1 then es[s.lo].t == FULL_TYPE
        else OpenRun(es, s.lo, s.hi - 1) && es[s.hi - 1].t == LAST_TYPE)
  }

  /** The entries are runs of the records, in order and without overlap, from `lo` on. */
  ghost predicate AreRuns(es: seq<Event>, lo: nat, spans: seq<Span>, entries: seq<Bytestring>)
    decreases |entries|
  {
    if entries == [] then spans == []
    else
      && |spans| > 0 && lo <= spans[0].lo && IsRun(es, spans[0], entries[0])
      && AreRuns(es, spans[0].hi, spans[1..], entries[1..])
  }

  lemma DataAppend(es: seq<Event>, lo: nat, i: nat)
    requires lo <= i < |es|
    ensures Data(es[lo..i + 1]) == Data(es[lo..i]) + es[i].data
  {
    assert es[lo..i + 1][..i - lo] == es[lo..i];
  }

  lemma DataOne(es: seq<Event>, i: nat)
    requires i < |es|
    ensures Data(es[i..i + 1]) == es[i].data
  {
    DataAppend(es, i, i);
    assert es[i..i] == [];
  }

  lemma {:induction false} AddRun(es: seq<Event>, s: Span, e: Bytestring, spans: seq<Span>, entries: seq<Bytestring>)
    requires IsRun(es, s, e) && AreRuns(es, s.hi, spans, entries)
    ensures AreRuns(es, s.lo, [s] + spans, [e] + entries)
  {
    assert ([s] + spans)[1..] == spans && ([e] + entries)[1..] == entries;
  }

  lemma {:induction false} EarlierBound(es: seq<Event>, lo: nat, lo': nat, spans: seq<Span>, entries: seq<Bytestring>)
    requires AreRuns(es, lo, spans, entries) && lo' <= lo
    ensures AreRuns(es, lo', spans, entries)
  {
  }

  function From(lo: Option<nat>, i: nat): nat {
    if lo.Some? then lo.value else i
  }

  /** What is open after the records `lo..i`. */
  ghost function OpenData(es: seq<Event>, lo: Option<nat>, i: nat): Option<Bytestring>
    requires lo.Some? ==> lo.value <= i <= |es|
  {
    if lo.Some? then Some(Data(es[lo.value..i])) else None
  }

  /** How the record at `i` is assembled. */
  lemma AssembleAt(es: seq<Event>, i: nat, open: Option<Bytestring>)
    requires i < |es|
    ensures Assemble(es[i..], open) ==
            var Event(t, data) := es[i];
            if t == FULL_TYPE then [data] + Assemble(es[i + 1..], None)
            else if t == FIRST_TYPE then Assemble(es[i + 1..], Some(data))
            else if t == MIDDLE_TYPE && open.Some? then Assemble(es[i + 1..], Some(open.value + data))
            else if t == LAST_TYPE && open.Some? then [open.value + data] + Assemble(es[i + 1..], None)
            else if t == EOF_TYPE then []
            else Assemble(es[i + 1..], None)
  {
    assert es[i..][0] == es[i] && es[i..][1..] == es[i + 1..];
  }

  lemma {:induction false} CloseFull(es: seq<Event>, i: nat, lo: Option<nat>, more: seq<Span>)
    requires i < |es| && es[i].t == FULL_TYPE && (lo.Some? ==> OpenRun(es, lo.value, i))
    requires AreRuns(es, i + 1, more, Assemble(es[i + 1..], None))
    ensures AreRuns(es, From(lo, i), [Span(i, i + 1)] + more, Assemble(es[i..], OpenData(es, lo, i)))
  {
    AssembleAt(es, i, OpenData(es, lo, i));
    DataOne(es, i);
    AddRun(es, Span(i, i + 1), es[i].data, more, Assemble(es[i + 1..], None));
    EarlierBound(es, i, From(lo, i), [Span(i, i + 1)] + more, Assemble(es[i..], OpenData(es, lo, i)));
  }

  lemma {:induction false} CloseLast(es: seq<Event>, i: nat, lo: nat, more: seq<Span>)
    requires i < |es| && es[i].t == LAST_TYPE && OpenRun(es, lo, i)
    requires AreRuns(es, i + 1, more, Assemble(es[i + 1..], None))
    ensures AreRuns(es, lo, [Span(lo, i + 1)] + more, Assemble(es[i..], OpenData(es, Some(lo), i)))
  {
    AssembleAt(es, i, OpenData(es, Some(lo), i));
    DataAppend(es, lo, i);
    AddRun(es, Span(lo, i + 1), Data(es[lo..i + 1]), more, Assemble(es[i + 1..], None));
  }

  /** Where the open run starts after a record that completes no entry. */
  lemma {:induction false} PassRecord(es: seq<Event>, i: nat, lo: Option<nat>) returns (next: Option<nat>)
    requires i < |es| && (lo.Some? ==> OpenRun(es, lo.value, i))
    requires es[i].t != FULL_TYPE && es[i].t != EOF_TYPE && (es[i].t == LAST_TYPE ==> lo.None?)
    ensures From(lo, i) <= From(next, i + 1)
    ensures next.Some? ==> OpenRun(es, next.value, i + 1)
    ensures Assemble(es[i..], OpenData(es, lo, i)) == Assemble(es[i + 1..], OpenData(es, next, i + 1))
  {
    AssembleAt(es, i, OpenData(es, lo, i));
    if es[i].t == FIRST_TYPE {
      next := Some(i);
      DataOne(es, i);
    } else if es[i].t == MIDDLE_TYPE && lo.Some? {
      next := lo;
      DataAppend(es, lo.value, i);
    } else {
      next := None;
    }
  }

  lemma {:induction false} AssembledRuns(es: seq<Event>, i: nat, lo: Option<nat>) returns (spans: seq<Span>)
    requires i <= |es| && (lo.Some? ==> OpenRun(es, lo.value, i))
    ensures AreRuns(es, From(lo, i), spans, Assemble(es[i..], OpenData(es, lo, i)))
    decreases |es| - i
  {
    if i == |es| {
      return [];
    }
    var t := es[i].t;
    if t == FULL_TYPE || (t == LAST_TYPE && lo.Some?) {
      var more := AssembledRuns(es, i + 1, None);
      if t == FULL_TYPE {
        CloseFull(es, i, lo, more);
        return [Span(i, i + 1)] + more;
      } else {
        CloseLast(es, i, lo.value, more);
        return [Span(lo.value, i + 1)] + more;
      }
    }
    if t == EOF_TYPE {
      AssembleAt(es, i, OpenData(es, lo, i));
      return [];
    }
    var next := PassRecord(es, i, lo);
    spans := AssembledRuns(es, i + 1, next);
    EarlierBound(es, From(next, i + 1), From(lo, i), spans, Assemble(es[i + 1..], OpenData(es, next, i + 1)));
  }

  /**
   * Whatever the bytes of the file, every entry read is one FULL record or an
   * uninterrupted FIRST, MIDDLE*, LAST run of its records; the runs are disjoint
   * and in file order.
   */
  lemma {:induction false} EntriesAreRuns(parse: Parser, f: Bytestring) returns (spans: seq<Span>)
    ensures AreRuns(Events(parse, f, START), 0, spans, Entries(parse, f))
  {
    var es := Events(parse, f, START);
    assert es[0..] == es;
    spans := AssembledRuns(es, 0, None);
  }

  // ---------------------------------------------------------------- one damaged block

  /** The records of one complete block, from offset `i` in it. */
  function BlockEvents(parse: Parser, block: Bytestring, i: nat): seq<Event>
    requires i <= |block|
    decreases |block| - i
  {
    match parse(block[i..], true)
    case Take(t, data) => [Event(t, data)] + BlockEvents(parse, block, i + HEADER_SIZE + |data|)
    case Drop => [BAD]
    case Skip => []
    case Stop => []
  }

  lemma EventsByParse(parse: Parser, f: Bytestring, c: Cursor, r: Parsed)
    requires c.Valid() && c.end <= |f| && r == parse(Rest(f, c), true)
    ensures r.Take? ==>
              Events(parse, f, c) == [Event(r.t, r.data)] + Events(parse, f, c.Advance(HEADER_SIZE + |r.data|))
    ensures r.Drop? ==> Events(parse, f, c) == [BAD] + Events(parse, f, Cursor(c.end, c.end))
    ensures r.Skip? ==> Events(parse, f, c) == Events(parse, f, Cursor(c.end, c.end + BLOCK_SIZE))
    ensures !r.Stop?
  {
  }

  lemma BlockEventsByParse(parse: Parser, block: Bytestring, i: nat, r: Parsed)
    requires i <= |block| && r == parse(block[i..], true)
    ensures r.Take? ==>
              && i + HEADER_SIZE + |r.data| <= |block|
              && BlockEvents(parse, block, i) ==
                 [Event(r.t, r.data)] + BlockEvents(parse, block, i + HEADER_SIZE + |r.data|)
    ensures r.Drop? ==> BlockEvents(parse, block, i) == [BAD]
    ensures r.Skip? ==> BlockEvents(parse, block, i) == []
  {
  }

  /** One record of a block, then the rest of it. */
  lemma {:induction false} BlockLocalTake(parse: Parser, f: Bytestring, lo: nat, block: Bytestring, i: nat, r: Parsed)
    requires lo + BLOCK_SIZE <= |f| && block == f[lo..lo + BLOCK_SIZE] && i <= BLOCK_SIZE
    requires r == parse(block[i..], true) && r.Take?
    requires var hi, j := lo + BLOCK_SIZE, i + HEADER_SIZE + |r.data|;
             Events(parse, f, Cursor(lo + j, hi)) ==
             BlockEvents(parse, block, j) + Events(parse, f, Cursor(hi, hi + BLOCK_SIZE))
    ensures var hi := lo + BLOCK_SIZE;
            Events(parse, f, Cursor(lo + i, hi)) ==
            BlockEvents(parse, block, i) + Events(parse, f, Cursor(hi, hi + BLOCK_SIZE))
  {
    var hi, j := lo + BLOCK_SIZE, i + HEADER_SIZE + |r.data|;
    var e := Event(r.t, r.data);
    assert Events(parse, f, Cursor(lo + i, hi)) == [e] + Events(parse, f, Cursor(lo + j, hi)) by {
      assert Rest(f, Cursor(lo + i, hi)) == block[i..];
      EventsByParse(parse, f, Cursor(lo + i, hi), r);
    }
    assert BlockEvents(parse, block, i) == [e] + BlockEvents(parse, block, j) by {
      BlockEventsByParse(parse, block, i, r);
    }
    Prepend(e, Events(parse, f, Cursor(lo + j, hi)), BlockEvents(parse, block, j),
            Events(parse, f, Cursor(hi, hi + BLOCK_SIZE)));
  }

  lemma Prepend(e: Event, all: seq<Event>, first: seq<Event>, later: seq<Event>)
    requires all == first + later
    ensures [e] + all == ([e] + first) + later
  {
  }

  /** The end of a block's records. */
  lemma {:induction false} BlockLocalEnd(parse: Parser, f: Bytestring, lo: nat, block: Bytestring, i: nat, r: Parsed)
    requires lo + BLOCK_SIZE <= |f| && block == f[lo..lo + BLOCK_SIZE] && i <= BLOCK_SIZE
    requires r == parse(block[i..], true) && !r.Take?
    ensures var hi := lo + BLOCK_SIZE;
            Events(parse, f, Cursor(lo + i, hi)) ==
            BlockEvents(parse, block, i) + Events(parse, f, Cursor(hi, hi + BLOCK_SIZE))
  {
    var hi := lo + BLOCK_SIZE;
    assert Rest(f, Cursor(lo + i, hi)) == block[i..];
    EventsByParse(parse, f, Cursor(lo + i, hi), r);
    AtBlockEnd(parse, f, hi);
    BlockEventsByParse(parse, block, i, r);
  }

  /** The records of a complete block depend on nothing but its bytes. */
  lemma {:induction false} BlockLocal(parse: Parser, f: Bytestring, lo: nat, block: Bytestring, i: nat)
    requires lo + BLOCK_SIZE <= |f| && block == f[lo..lo + BLOCK_SIZE] && i <= BLOCK_SIZE
    ensures var hi := lo + BLOCK_SIZE;
            Events(parse, f, Cursor(lo + i, hi)) ==
            BlockEvents(parse, block, i) + Events(parse, f, Cursor(hi, hi + BLOCK_SIZE))
    decreases BLOCK_SIZE - i
  {
    var r := parse(block[i..], true);
    if r.Take? {
      BlockLocal(parse, f, lo, block, i + HEADER_SIZE + |r.data|);
      BlockLocalTake(parse, f, lo, block, i, r);
    } else {
      BlockLocalEnd(parse, f, lo, block, i, r);
    }
  }

  ghost predicate NoEofRecord(es: seq<Event>) {
    forall e | e in es :: e.t != EOF_TYPE
  }

  /** What is open after records none of which ends the log. */
  function OpenAfter(es: seq<Event>, open: Option<Bytestring>): Option<Bytestring>
    decreases |es|
  {
    if es == [] then open
    else
      var Event(t, data) := es[0];
      OpenAfter(es[1..],
                if t == FIRST_TYPE then Some(data)
                else if t == MIDDLE_TYPE && open.Some? then Some(open.value + data)
                else None)
  }

  lemma {:induction false} AssembleConcat(a: seq<Event>, b: seq<Event>, open: Option<Bytestring>)
    requires NoEofRecord(a)
    ensures Assemble(a + b, open) == Assemble(a, open) + Assemble(b, OpenAfter(a, open))
    decreases |a|
  {
    if a == [] {
      assert a + b == b;
    } else {
      assert (a + b)[0] == a[0] && (a + b)[1..] == a[1..] + b;
      assert a[0] in a;
      var Event(t, data) := a[0];
      var open' := if t == FIRST_TYPE then Some(data)
                   else if t == MIDDLE_TYPE && open.Some? then Some(open.value + data)
                   else None;
      AssembleConcat(a[1..], b, open');
    }
  }

  /** A record of type `EOF_TYPE` hides everything after it. */
  lemma {:induction false} EofRecordHidesRest(a: seq<Event>, b: seq<Event>, open: Option<Bytestring>)
    requires !NoEofRecord(a)
    ensures Assemble(a + b, open) == Assemble(a, open)
    decreases |a|
  {
    assert (a + b)[0] == a[0] && (a + b)[1..] == a[1..] + b;
    if a[0].t != EOF_TYPE {
      var e :| e in a && e.t == EOF_TYPE;
      assert e in a[1..];
      var Event(t, data) := a[0];
      var open' := if t == FIRST_TYPE then Some(data)
                   else if t == MIDDLE_TYPE && open.Some? then Some(open.value + data)
                   else None;
      EofRecordHidesRest(a[1..], b, open');
    }
  }

  /** Where the `b`-th block starts: at `BLOCK_SIZE` times `b`. */
  function BlockAt(b: nat): (r: nat)
    ensures b == 0 <==> r == 0
  {
    32768 * b
  }

  /** `hi` is a block boundary, `d` blocks past the end of the cursor's block. */
  ghost predicate Ahead(c: Cursor, hi: nat, d: int) {
    c.Valid() && hi == c.end + 32768 * d
  }

  /** `f` and `bytes`, which starts at offset `at`, agree before offset `to`. */
  ghost predicate HoldsUpTo(f: Bytestring, at: nat, bytes: Bytestring, to: nat) {
    at <= to <= |f| && to - at <= |bytes| && f[at..to] == bytes[..to - at]
  }

  lemma HoldsUpToSplit(f: Bytestring, at: nat, a: Bytestring, b: Bytestring, to: nat)
    requires HoldsUpTo(f, at, a + b, to) && at + |a| <= to
    ensures Holds(f, at, a) && HoldsUpTo(f, at + |a|, b, to)
  {
    var r := f[at..to];
    assert r == (a + b)[..to - at];
    assert r[..|a|] == a && r[|a|..] == b[..to - at - |a|];
    assert f[at..at + |a|] == r[..|a|] && f[at + |a|..to] == r[|a|..];
  }

  /** Before a block boundary that lies inside an entry, the entry's next fragment is not its last and fills a block. */
  lemma {:induction false} PartBefore(frame: Framer, c: Cursor, payload: Bytestring, begin: bool, hi: nat, d: int) returns (d': int)
    requires Ahead(c, hi, d)
    requires c.Aligned().at < hi < Encode(frame, c, payload, begin).cursor.at
    ensures Taken(c, payload) < |payload|
    ensures var next := NextCursor(c, payload);
            && Ahead(next, hi, d') && next.at == next.end <= hi && (next.at == hi || next.Aligned().at < hi)
            && var tail := Encode(frame, next, payload[Taken(c, payload)..], false);
            Encode(frame, c, payload, begin) == Written(frame(c, payload, begin) + tail.bytes, tail.cursor)
  {
    d' := if c.Aligned() == c then d else d - 1;
    AlignedBefore(c, hi, d, d');
  }

  lemma AlignedBefore(c: Cursor, hi: nat, d: int, d': int)
    requires Ahead(c, hi, d) && c.Aligned().at < hi && d' == if c.Aligned() == c then d else d - 1
    ensures Ahead(c.Aligned(), hi, d') && d' >= 0
  {
  }

  /** A cursor in front of a block's trailer, or at its end, reads on in the next block. */
  lemma {:induction false} AtBoundary(parse: Parser, f: Bytestring, c: Cursor, hi: nat, d: int)
    requires Ahead(c, hi, d) && c.at <= hi <= c.Aligned().at && hi <= |f|
    ensures Events(parse, f, c) == Events(parse, f, Cursor(hi, hi + BLOCK_SIZE))
  {
    assert c.Aligned() == Cursor(hi, hi + BLOCK_SIZE);
    SkipTrailer(parse, f, c);
  }

  /** An entry that runs across the block boundary `lo` reaches it with some of its fragments open. */
  lemma {:induction false} ReachBlock(
    parse: Parser, frame: Framer, f: Bytestring, c: Cursor, payload: Bytestring, begin: bool,
    open: Option<Bytestring>, lo: nat, d: int) returns (open': Option<Bytestring>)
    requires Accepts(parse, frame) && Ahead(c, lo, d)
    requires c.at <= lo < Encode(frame, c, payload, begin).cursor.at
    requires HoldsUpTo(f, c.at, Encode(frame, c, payload, begin).bytes, lo)
    ensures Assemble(Events(parse, f, c), open) == Assemble(Events(parse, f, Cursor(lo, lo + BLOCK_SIZE)), open')
    decreases |payload|, Stalled(c)
  {
    if c.Aligned().at >= lo {
      AtBoundary(parse, f, c, lo, d);
      open' := open;
    } else {
      var d' := PartBefore(frame, c, payload, begin, lo, d);
      var k, next := Taken(c, payload), NextCursor(c, payload);
      assert Holds(f, c.at, frame(c, payload, begin))
        && HoldsUpTo(f, next.at, Encode(frame, next, payload[k..], false).bytes, lo)
      by {
        HoldsUpToSplit(f, c.at, frame(c, payload, begin), Encode(frame, next, payload[k..], false).bytes, lo);
      }
      assert Assemble(Events(parse, f, c), open) ==
             Assemble(Events(parse, f, next), Opened(begin, open, payload[..k]))
      by {
        ReadPart(parse, frame, f, c, payload, begin, open);
      }
      open' := ReachBlock(parse, frame, f, next, payload[k..], false, Opened(begin, open, payload[..k]), lo, d');
    }
  }

  /** From offset `hi` on, the bytes `w` of an entry written at `at` encode the rest `payload` of it. */
  ghost predicate EncodesRest(frame: Framer, at: nat, w: Written, hi: nat, payload: Bytestring) {
    var v := Encode(frame, Cursor(hi, hi), payload, false);
    at <= hi <= at + |w.bytes| && v.cursor == w.cursor && v.bytes == w.bytes[hi - at..]
  }

  /** What an entry that began before the block boundary `hi` writes after it is a rest of its payload. */
  lemma {:induction false} EncodedAfter(
    frame: Framer, c: Cursor, payload: Bytestring, begin: bool, hi: nat, d: int) returns (k: nat)
    requires Ahead(c, hi, d)
    requires c.Aligned().at < hi < Encode(frame, c, payload, begin).cursor.at
    ensures k <= |payload|
    ensures EncodesRest(frame, c.at, Encode(frame, c, payload, begin), hi, payload[k..])
    decreases |payload|, Stalled(c)
  {
    var d' := PartBefore(frame, c, payload, begin, hi, d);
    var m, next := Taken(c, payload), NextCursor(c, payload);
    if next.at == hi {
      k := m;
      NextIsRest(frame, c, payload, begin, hi);
    } else {
      var rest := payload[m..];
      var j := EncodedAfter(frame, next, rest, false, hi, d');
      k := m + j;
      RestOfRest(frame, c, payload, begin, hi, j);
    }
  }

  /** What follows the next piece of an entry, up to the block boundary, is a rest of it. */
  lemma NextIsRest(frame: Framer, c: Cursor, payload: Bytestring, begin: bool, hi: nat)
    requires c.Valid() && Taken(c, payload) < |payload|
    requires NextCursor(c, payload).at == NextCursor(c, payload).end == hi
    ensures EncodesRest(frame, c.at, Encode(frame, c, payload, begin), hi, payload[Taken(c, payload)..])
  {
    RestHere(frame, NextCursor(c, payload), payload[Taken(c, payload)..]);
    RestOfRest(frame, c, payload, begin, hi, 0);
  }

  lemma RestHere(frame: Framer, c: Cursor, payload: Bytestring)
    requires c.at == c.end
    ensures EncodesRest(frame, c.at, Encode(frame, c, payload, false), c.at, payload[0..])
  {
    assert payload[0..] == payload;
    assert c == Cursor(c.at, c.at);
  }

  /** A rest of what follows the next piece of an entry is a rest of the entry. */
  lemma RestOfRest(frame: Framer, c: Cursor, payload: Bytestring, begin: bool, hi: nat, j: nat)
    requires c.Valid() && Taken(c, payload) < |payload| && Taken(c, payload) + j <= |payload|
    requires var next, rest := NextCursor(c, payload), payload[Taken(c, payload)..];
             EncodesRest(frame, next.at, Encode(frame, next, rest, false), hi, rest[j..])
    ensures EncodesRest(frame, c.at, Encode(frame, c, payload, begin), hi, payload[Taken(c, payload) + j..])
  {
    var m, next := Taken(c, payload), NextCursor(c, payload);
    SliceSlice(payload, m, j);
    SkipHead(frame, c.at, frame(c, payload, begin), Encode(frame, next, payload[m..], false), hi, payload[m + j..]);
  }

  lemma SkipHead(frame: Framer, at: nat, head: Bytestring, tail: Written, hi: nat, rest: Bytestring)
    requires EncodesRest(frame, at + |head|, tail, hi, rest)
    ensures EncodesRest(frame, at, Written(head + tail.bytes, tail.cursor), hi, rest)
  {
    DropHead(head, tail.bytes, hi - at);
  }

  lemma SliceSlice(a: Bytestring, m: nat, j: nat)
    requires m + j <= |a|
    ensures a[m..][j..] == a[m + j..]
  {
  }

  lemma DropHead(a: Bytestring, b: Bytestring, i: nat)
    requires |a| <= i <= |a| + |b|
    ensures (a + b)[i..] == b[i - |a|..]
  {
  }

  /** The cursor of a writer stays on the block grid. */
  lemma {:induction false} EncodeStaysAhead(
    frame: Framer, c: Cursor, payload: Bytestring, begin: bool, hi: nat, d: int) returns (d': int)
    requires Ahead(c, hi, d)
    ensures Ahead(Encode(frame, c, payload, begin).cursor, hi, d')
    decreases |payload|, Stalled(c)
  {
    d' := if c.Aligned() == c then d else d - 1;
    if Taken(c, payload) < |payload| {
      d' := EncodeStaysAhead(frame, NextCursor(c, payload), payload[Taken(c, payload)..], false, hi, d');
    }
  }

  lemma {:induction false} LogStaysAhead(frame: Framer, entries: seq<Bytestring>, k: nat, hi: nat, b: nat) returns (d: int)
    requires hi == BlockAt(b) && k <= |entries|
    ensures Ahead(LogTo(frame, entries, k).cursor, hi, d)
    decreases k
  {
    if k == 0 {
      d := b - 1;
    } else {
      LogNext(frame, entries, k - 1);
      d := LogStaysAhead(frame, entries, k - 1, hi, b);
      d := EncodeStaysAhead(frame, LogTo(frame, entries, k - 1).cursor, entries[k - 1], true, hi, d);
    }
  }

  /** Reading a run of entries that the file holds. */
  lemma {:induction false} ReadRun(parse: Parser, f: Bytestring, encode: Encoder, c: Cursor, entries: seq<Bytestring>)
    requires AlwaysReadsBack(parse, f, encode) && c.Valid()
    requires Holds(f, c.at, WriteAll(encode, c, entries).bytes)
    ensures var w := WriteAll(encode, c, entries);
            && w.cursor.Valid() && w.cursor.at == c.at + |w.bytes|
            && EntriesFrom(parse, f, c) == entries + EntriesFrom(parse, f, w.cursor)
    decreases |entries|
  {
    if |entries| > 0 {
      var head := encode(c, entries[0]);
      assert ReadsBack(parse, f, encode, c, entries[0]);
      HoldsSplit(f, c.at, head.bytes, WriteAll(encode, head.cursor, entries[1..]).bytes);
      ReadRun(parse, f, encode, head.cursor, entries[1..]);
      assert entries == [entries[0]] + entries[1..];
    }
  }

  /** The entries up to the end of the file are read, whatever the reader has open. */
  lemma {:induction false} ReadTail(
    parse: Parser, frame: Framer, f: Bytestring, c: Cursor, entries: seq<Bytestring>, open: Option<Bytestring>)
    requires Accepts(parse, frame) && c.Valid() && c.at <= |f|
    requires f[c.at..] == WriteAll(EntryEncoder(frame), c, entries).bytes
    ensures Assemble(Events(parse, f, c), open) == entries
  {
    var encode := EntryEncoder(frame);
    var w := WriteAll(encode, c, entries);
    assert f[c.at..c.at + |w.bytes|] == f[c.at..];
    EntriesReadBack(parse, frame, f);
    ReadRun(parse, f, encode, c, entries);
    NoMoreEvents(parse, f, w.cursor);
    if |entries| == 0 {
    } else {
      var head := Encode(frame, c, entries[0], true);
      assert encode(c, entries[0]) == head;
      HoldsSplit(f, c.at, head.bytes, WriteAll(encode, head.cursor, entries[1..]).bytes);
      ReadEncoded(parse, frame, f, c, entries[0], true, open);
      ReadEncoded(parse, frame, f, c, entries[0], true, None);
    }
  }

  /** In front of a trailer, a framer writes the trailer and then what it writes after it. */
  ghost predicate Padded(frame: Framer) {
    forall c: Cursor, payload, begin {:trigger frame(c, payload, begin)} | c.Valid() && c.Aligned() != c ::
      frame(c, payload, begin) == Zeros(c.Aligned().at - c.at) + frame(c.Aligned(), payload, begin)
  }

  lemma {:induction false} LogFramerPadded(seal: Seal)
    requires seal.Lawful()
    ensures Padded(FramerOf(seal))
  {
    forall c: Cursor, payload, begin | c.Valid()
      ensures Head(seal, c, payload, begin) ==
              Zeros(c.Aligned().at - c.at) + Head(seal, c.Aligned(), payload, begin)
    {
      assert c.Aligned().Aligned() == c.Aligned() && Zeros(0) == [];
    }
  }

  /** An entry written in front of a trailer is the trailer followed by the entry written after it. */
  lemma {:induction false} EncodeAligned(frame: Framer, c: Cursor, payload: Bytestring, begin: bool)
    requires Padded(frame) && c.Valid()
    ensures var v := Encode(frame, c.Aligned(), payload, begin);
            Encode(frame, c, payload, begin) == Written(Zeros(c.Aligned().at - c.at) + v.bytes, v.cursor)
  {
    var a, pad := c.Aligned(), Zeros(c.Aligned().at - c.at);
    assert NextCursor(a, payload) == NextCursor(c, payload) && Taken(a, payload) == Taken(c, payload);
    assert frame(c, payload, begin) == pad + frame(a, payload, begin) by {
      if a == c {
        assert pad == [];
      }
    }
    if Taken(c, payload) < |payload| {
      PadMore(pad, frame(a, payload, begin), Encode(frame, NextCursor(c, payload), payload[Taken(c, payload)..], false).bytes);
    }
  }

  lemma PadMore(pad: Bytestring, a: Bytestring, b: Bytestring)
    ensures (pad + a) + b == pad + (a + b)
  {
  }

  lemma {:induction false} WriteAllAligned(frame: Framer, c: Cursor, entries: seq<Bytestring>)
    requires Padded(frame) && c.Valid() && |entries| > 0
    ensures WriteAll(EntryEncoder(frame), c, entries).bytes ==
            Zeros(c.Aligned().at - c.at) + WriteAll(EntryEncoder(frame), c.Aligned(), entries).bytes
  {
    var encode := EntryEncoder(frame);
    EncodeAligned(frame, c, entries[0], true);
    SameTail(encode, c, c.Aligned(), entries, Zeros(c.Aligned().at - c.at));
  }

  lemma SameTail(encode: Encoder, c: Cursor, a: Cursor, entries: seq<Bytestring>, pad: Bytestring)
    requires |entries| > 0
    requires var w, v := encode(c, entries[0]), encode(a, entries[0]);
             w.cursor == v.cursor && w.bytes == pad + v.bytes
    ensures WriteAll(encode, c, entries).bytes == pad + WriteAll(encode, a, entries).bytes
  {
  }

  /** Entries whose first fragment starts at or after `hi` are read from there, whatever is open. */
  lemma {:induction false} ReadAfter(
    parse: Parser, frame: Framer, f: Bytestring, g: Bytestring, c: Cursor, entries: seq<Bytestring>,
    open: Option<Bytestring>, hi: nat, d: int)
    requires Accepts(parse, frame) && Padded(frame) && Ahead(c, hi, d)
    requires c.at <= |g| == |f| && g[c.at..] == WriteAll(EntryEncoder(frame), c, entries).bytes
    requires c.at <= hi <= c.Aligned().at && hi <= |f| && f[hi..] == g[hi..]
    ensures Assemble(Events(parse, f, Cursor(hi, hi + BLOCK_SIZE)), open) == entries
  {
    if c.at == hi {
      ReadTail(parse, frame, f, c, entries, open);
      AtBoundary(parse, f, c, hi, d);
    } else {
      TailAfterTrailer(frame, g, c, entries, hi);
      ReadTail(parse, frame, f, Cursor(hi, hi + BLOCK_SIZE), entries, open);
    }
  }

  lemma {:induction false} TailAfterTrailer(frame: Framer, g: Bytestring, c: Cursor, entries: seq<Bytestring>, hi: nat)
    requires Padded(frame) && c.Valid() && c.at < hi <= |g| && c.Aligned() == Cursor(hi, hi + BLOCK_SIZE)
    requires g[c.at..] == WriteAll(EntryEncoder(frame), c, entries).bytes
    ensures g[hi..] == WriteAll(EntryEncoder(frame), c.Aligned(), entries).bytes
  {
    assert |entries| > 0;
    WriteAllAligned(frame, c, entries);
    SkipBytes(g, c.at, Zeros(hi - c.at), WriteAll(EntryEncoder(frame), c.Aligned(), entries).bytes);
  }

  lemma FirstOf(frame: Framer, c: Cursor, entries: seq<Bytestring>)
    requires c.Valid() && |entries| > 0
    ensures var w := Encode(frame, c, entries[0], true);
            WriteAll(EntryEncoder(frame), c, entries).bytes ==
            w.bytes + WriteAll(EntryEncoder(frame), w.cursor, entries[1..]).bytes
  {
  }

  lemma SkipBytes(g: Bytestring, at: nat, a: Bytestring, b: Bytestring)
    requires at <= |g| && g[at..] == a + b
    ensures at + |a| <= |g| && g[at + |a|..] == b
  {
    assert g[at + |a|..] == g[at..][|a|..];
  }

  /** What is left of an entry that ran into the damaged block, then the entries after it. */
  lemma {:induction false} ReadSpilled(
    parse: Parser, frame: Framer, f: Bytestring, at: nat, e: Bytestring, w: Written,
    later: seq<Bytestring>, open: Option<Bytestring>, hi: nat) returns (junk: seq<Bytestring>)
    requires Accepts(parse, frame)
    requires at <= hi <= w.cursor.at <= |f| && w.cursor.Valid() && w.cursor.at == at + |w.bytes|
    requires Holds(f, hi, w.bytes[hi - at..])
    requires f[w.cursor.at..] == WriteAll(EntryEncoder(frame), w.cursor, later).bytes
    requires EncodesRest(frame, at, w, hi, e)
    ensures Assemble(Events(parse, f, Cursor(hi, hi + BLOCK_SIZE)), open) == junk + later && (open.None? ==> junk == [])
  {
    AtBlockEnd(parse, f, hi);
    ReadEncoded(parse, frame, f, Cursor(hi, hi), e, false, open);
    junk := Completed(false, open, e);
    ReadTail(parse, frame, f, w.cursor, later, None);
  }

  /** From `c` on, `g` holds what was written as `w` and then the entries `later`. */
  ghost predicate WrittenFrom(
    frame: Framer, g: Bytestring, c: Cursor, w: Written, later: seq<Bytestring>)
  {
    && c.at <= |g| && w.cursor.Valid() && w.cursor.at == c.at + |w.bytes|
    && g[c.at..] == w.bytes + WriteAll(EntryEncoder(frame), w.cursor, later).bytes
  }

  /** The entry in front of the boundary ended before it. */
  lemma {:induction false} ReadPastEnded(
    parse: Parser, frame: Framer, f: Bytestring, g: Bytestring, c: Cursor, e: Bytestring,
    later: seq<Bytestring>, open: Option<Bytestring>, hi: nat, d: int)
    requires Accepts(parse, frame) && Padded(frame) && Ahead(c, hi, d)
    requires |g| == |f| && hi <= |f| && f[hi..] == g[hi..]
    requires WrittenFrom(frame, g, c, Encode(frame, c, e, true), later)
    requires Encode(frame, c, e, true).cursor.at <= hi <= Encode(frame, c, e, true).cursor.Aligned().at
    ensures Assemble(Events(parse, f, Cursor(hi, hi + BLOCK_SIZE)), open) == later
  {
    var w := Encode(frame, c, e, true);
    var d' := EncodeStaysAhead(frame, c, e, true, hi, d);
    SkipBytes(g, c.at, w.bytes, WriteAll(EntryEncoder(frame), w.cursor, later).bytes);
    ReadAfter(parse, frame, f, g, w.cursor, later, open, hi, d');
  }

  /** The entry in front of the boundary runs past it. */
  lemma {:induction false} ReadPastSpilled(
    parse: Parser, frame: Framer, f: Bytestring, g: Bytestring, c: Cursor, e: Bytestring,
    later: seq<Bytestring>, open: Option<Bytestring>, hi: nat, d: int) returns (junk: seq<Bytestring>)
    requires Accepts(parse, frame) && Ahead(c, hi, d)
    requires |g| == |f| && hi <= |f| && f[hi..] == g[hi..]
    requires WrittenFrom(frame, g, c, Encode(frame, c, e, true), later)
    requires c.Aligned().at < hi < Encode(frame, c, e, true).cursor.at
    ensures Assemble(Events(parse, f, Cursor(hi, hi + BLOCK_SIZE)), open) == junk + later && (open.None? ==> junk == [])
  {
    var w := Encode(frame, c, e, true);
    var k := EncodedAfter(frame, c, e, true, hi, d);
    HoldsRest(f, g, c.at, w.bytes, WriteAll(EntryEncoder(frame), w.cursor, later).bytes, hi);
    junk := ReadSpilled(parse, frame, f, c.at, e[k..], w, later, open, hi);
  }

  lemma HoldsRest(f: Bytestring, g: Bytestring, at: nat, a: Bytestring, b: Bytestring, hi: nat)
    requires at <= hi <= at + |a| && |f| == |g| && at <= |g|
    requires g[at..] == a + b && hi <= |g| && f[hi..] == g[hi..]
    ensures Holds(f, hi, a[hi - at..]) && f[at + |a|..] == b
  {
    var r := g[at..];
    assert g[hi..] == r[hi - at..];
    assert r[hi - at..] == a[hi - at..] + b;
    var q := f[hi..];
    assert q[..at + |a| - hi] == a[hi - at..] && q[at + |a| - hi..] == b;
    assert f[hi..at + |a|] == q[..at + |a| - hi] && f[at + |a|..] == q[at + |a| - hi..];
  }

  /** The log up to entry `k`, and from there. */
  lemma {:induction false} LogSplit(frame: Framer, entries: seq<Bytestring>, k: nat)
    requires k <= |entries|
    ensures var w := LogTo(frame, entries, k);
            && w.cursor.Valid() && w.cursor.at == |w.bytes|
            && Log(frame, entries).bytes == w.bytes + WriteAll(EntryEncoder(frame), w.cursor, entries[k..]).bytes
  {
    LogToEnd(frame, entries, k);
    LogIsWriteAll(frame, entries);
    WriteFirstSplit(EntryEncoder(frame), START, entries, k);
  }

  /** The number of bytes in front of entry `k` (its end, for entry `k - 1`). */
  function EntryAt(frame: Framer, entries: seq<Bytestring>, k: nat): nat
    requires k <= |entries|
  {
    |LogTo(frame, entries, k).bytes|
  }

  /** Where the first fragment of entry `k` starts, past any trailer. */
  function FirstFragmentAt(frame: Framer, entries: seq<Bytestring>, k: nat): nat
    requires k <= |entries|
  {
    LogTo(frame, entries, k).cursor.Aligned().at
  }

  lemma Bracket(xs: seq<nat>, at: nat) returns (k: nat)
    requires |xs| > 0 && xs[0] <= at < xs[|xs| - 1]
    ensures k + 1 < |xs| && xs[k] <= at < xs[k + 1]
  {
    k := |xs| - 2;
    while at < xs[k]
      invariant k + 1 < |xs| && at < xs[k + 1]
      decreases k
    {
      k := k - 1;
    }
  }

  lemma {:induction false} FindWritten(encode: Encoder, c: Cursor, entries: seq<Bytestring>, at: nat)
    returns (k: nat)
    requires at < |WriteAll(encode, c, entries).bytes|
    ensures k < |entries| && SizeOf(encode, c, entries, k) <= at < SizeOf(encode, c, entries, k + 1)
    decreases |entries|
  {
    var w := encode(c, entries[0]);
    if at < |w.bytes| {
      k := 0;
      SizeOfStep(encode, c, entries, 1);
    } else {
      var j := FindWritten(encode, w.cursor, entries[1..], at - |w.bytes|);
      k := j + 1;
      SizeOfStep(encode, c, entries, k);
      SizeOfStep(encode, c, entries, k + 1);
    }
  }

  /** The entry in which (or at whose beginning) offset `at` lies. */
  lemma {:induction false} FindEntry(frame: Framer, entries: seq<Bytestring>, at: nat) returns (k: nat)
    requires at < |Log(frame, entries).bytes|
    ensures k < |entries| && EntryAt(frame, entries, k) <= at < EntryAt(frame, entries, k + 1)
  {
    LogIsWriteAll(frame, entries);
    k := FindWritten(EntryEncoder(frame), START, entries, at);
  }

  /** The first entry whose first fragment starts at or after `hi`. */
  lemma {:induction false} FindAfter(frame: Framer, entries: seq<Bytestring>, hi: nat) returns (k: nat)
    requires 0 < hi <= FirstFragmentAt(frame, entries, |entries|)
    ensures 0 < k <= |entries|
    ensures FirstFragmentAt(frame, entries, k - 1) < hi <= FirstFragmentAt(frame, entries, k)
  {
    var xs: seq<nat> := seq(|entries| + 1, i requires 0 <= i <= |entries| => FirstFragmentAt(frame, entries, i));
    k := Bracket(xs, hi - 1);
    k := k + 1;
  }

  /** The files are equally long and differ at most within `lo..hi`. */
  ghost predicate SameOutside(f: Bytestring, g: Bytestring, lo: nat, hi: nat)
    requires lo <= hi
  {
    |f| == |g| && hi <= |f| && f[..lo] == g[..lo] && f[hi..] == g[hi..]
  }

  /** Where the `b`-th block ends: the last one ends with the file. */
  function BlockEnd(f: Bytestring, b: nat): nat {
    if BlockAt(b + 1) <= |f| then BlockAt(b + 1) else |f|
  }

  /** None of the records found in a complete block claims to be of type `EOF_TYPE`. */
  ghost predicate NoEofInBlock(parse: Parser, f: Bytestring, b: nat) {
    BlockAt(b + 1) <= |f| ==> NoEofRecord(BlockEvents(parse, f[BlockAt(b)..BlockAt(b + 1)], 0))
  }

  /** Entry `k` is the first whose first fragment starts after the block; behind an incomplete block there is none. */
  ghost predicate FirstAfter(frame: Framer, entries: seq<Bytestring>, f: Bytestring, b: nat, k: nat) {
    if BlockAt(b + 1) <= |f| then
      0 < k <= |entries| && FirstFragmentAt(frame, entries, k - 1) < BlockAt(b + 1) <= FirstFragmentAt(frame, entries, k)
    else k == |entries|
  }

  /**
   * One block of a log, complete or the incomplete last one, is overwritten with
   * arbitrary bytes. As long as none of the records found in a complete block
   * claims to be of type `EOF_TYPE`, the reader returns every entry that ends
   * before the block and every entry whose first fragment starts after it: only
   * entries that touch the block can be lost.
   */
  lemma {:induction false} DamagedBlock(parse: Parser, frame: Framer, entries: seq<Bytestring>, f: Bytestring, b: nat)
    returns (k1: nat, k2: nat, junk: seq<Bytestring>)
    requires Accepts(parse, frame) && Padded(frame) && BlockAt(b) < |f|
    requires SameOutside(f, Log(frame, entries).bytes, BlockAt(b), BlockEnd(f, b)) && NoEofInBlock(parse, f, b)
    ensures k1 < |entries| && EntryAt(frame, entries, k1) <= BlockAt(b) < EntryAt(frame, entries, k1 + 1)
    ensures FirstAfter(frame, entries, f, b, k2) && k2 <= |entries|
    ensures Entries(parse, f) == entries[..k1] + junk + entries[k2..]
  {
    if BlockAt(b + 1) <= |f| {
      k1, k2, junk := DamagedWhole(parse, frame, entries, f, b);
    } else {
      k1, junk := DamagedLast(parse, frame, entries, f, b);
      k2 := |entries|;
      assert entries[k2..] == [];
    }
  }

  /** Everything from a block on is damaged: the entries that end before it are read. */
  lemma {:induction false} DamagedLast(parse: Parser, frame: Framer, entries: seq<Bytestring>, f: Bytestring, b: nat)
    returns (k: nat, junk: seq<Bytestring>)
    requires Accepts(parse, frame) && BlockAt(b) < |f| == |Log(frame, entries).bytes|
    requires f[..BlockAt(b)] == Log(frame, entries).bytes[..BlockAt(b)]
    ensures k < |entries| && EntryAt(frame, entries, k) <= BlockAt(b) < EntryAt(frame, entries, k + 1)
    ensures Entries(parse, f) == entries[..k] + junk
  {
    var lo := BlockAt(b);
    k := FindEntry(frame, entries, lo);
    var open := ReadToBlock(parse, frame, entries, f, lo, b, k);
    junk := Assemble(Events(parse, f, Cursor(lo, lo + BLOCK_SIZE)), open);
  }

  lemma {:induction false} DamagedWhole(parse: Parser, frame: Framer, entries: seq<Bytestring>, f: Bytestring, b: nat)
    returns (k1: nat, k2: nat, junk: seq<Bytestring>)
    requires Accepts(parse, frame) && Padded(frame)
    requires SameOutside(f, Log(frame, entries).bytes, BlockAt(b), BlockAt(b + 1))
    requires NoEofRecord(BlockEvents(parse, f[BlockAt(b)..BlockAt(b + 1)], 0))
    ensures k1 < |entries| && EntryAt(frame, entries, k1) <= BlockAt(b) < EntryAt(frame, entries, k1 + 1)
    ensures 0 < k2 <= |entries|
    ensures FirstFragmentAt(frame, entries, k2 - 1) < BlockAt(b + 1) <= FirstFragmentAt(frame, entries, k2)
    ensures Entries(parse, f) == entries[..k1] + junk + entries[k2..]
  {
    var lo, hi := BlockAt(b), BlockAt(b + 1);
    var here := BlockEvents(parse, f[lo..hi], 0);
    k1 := FindEntry(frame, entries, lo);
    var open := ReadToBlock(parse, frame, entries, f, lo, b, k1);
    var open' := ReadBlock(parse, f, lo, hi, open);
    LogEndsLate(frame, entries, hi);
    k2 := FindAfter(frame, entries, hi);
    var rest := ReadFromBlock(parse, frame, entries, f, hi, b + 1, k2, open');
    junk := Assemble(here, open) + rest;
    Regroup(entries[..k1], Assemble(here, open), rest, entries[k2..]);
  }

  /** The log that the writer writes, read by the reader: damage to one block costs only entries that touch it. */
  lemma {:induction false} DamagedLog(seal: Seal, checksum: bool, entries: seq<Bytestring>, f: Bytestring, b: nat)
    returns (k1: nat, k2: nat, junk: seq<Bytestring>)
    requires seal.Lawful() && BlockAt(b) < |f|
    requires SameOutside(f, Log(FramerOf(seal), entries).bytes, BlockAt(b), BlockEnd(f, b))
    requires NoEofInBlock(LogParser(seal, checksum), f, b)
    ensures k1 < |entries| && EntryAt(FramerOf(seal), entries, k1) <= BlockAt(b) < EntryAt(FramerOf(seal), entries, k1 + 1)
    ensures FirstAfter(FramerOf(seal), entries, f, b, k2) && k2 <= |entries|
    ensures Entries(LogParser(seal, checksum), f) == entries[..k1] + junk + entries[k2..]
  {
    LogParserAccepts(seal, checksum);
    LogFramerPadded(seal);
    k1, k2, junk := DamagedBlock(LogParser(seal, checksum), FramerOf(seal), entries, f, b);
  }

  /** The same for logs sealed with CRC32C. */
  lemma {:induction false} DamagedCrcLog(seal: Seal, checksum: bool, entries: seq<Bytestring>, f: Bytestring, b: nat)
    returns (k1: nat, k2: nat, junk: seq<Bytestring>)
    requires seal == CrcSeal() && BlockAt(b) < |f| && NoEofInBlock(LogParser(seal, checksum), f, b)
    requires seal.Lawful() ==> SameOutside(f, Log(FramerOf(seal), entries).bytes, BlockAt(b), BlockEnd(f, b))
    ensures seal.Lawful() && k1 < |entries| && k2 <= |entries| && FirstAfter(FramerOf(seal), entries, f, b, k2)
    ensures EntryAt(FramerOf(seal), entries, k1) <= BlockAt(b) < EntryAt(FramerOf(seal), entries, k1 + 1)
    ensures Entries(LogParser(seal, checksum), f) == entries[..k1] + junk + entries[k2..]
  {
    SealOfLawful(Crc32c.Crc32c());
    k1, k2, junk := DamagedLog(seal, checksum, entries, f, b);
  }

  lemma Regroup(a: seq<Bytestring>, b: seq<Bytestring>, c: seq<Bytestring>, d: seq<Bytestring>)
    ensures a + (b + (c + d)) == a + (b + c) + d
  {
  }

  lemma {:induction false} LogEndsLate(frame: Framer, entries: seq<Bytestring>, hi: nat)
    requires hi <= |Log(frame, entries).bytes|
    ensures hi <= FirstFragmentAt(frame, entries, |entries|)
  {
    LogToEnd(frame, entries, |entries|);
  }

  /** Through a block in which no record claims to end the log. */
  lemma {:induction false} ReadBlock(parse: Parser, f: Bytestring, lo: nat, hi: nat, open: Option<Bytestring>)
    returns (open': Option<Bytestring>)
    requires hi == lo + BLOCK_SIZE <= |f| && NoEofRecord(BlockEvents(parse, f[lo..hi], 0))
    ensures Assemble(Events(parse, f, Cursor(lo, lo + BLOCK_SIZE)), open) ==
            Assemble(BlockEvents(parse, f[lo..hi], 0), open)
            + Assemble(Events(parse, f, Cursor(hi, hi + BLOCK_SIZE)), open')
  {
    var here := BlockEvents(parse, f[lo..hi], 0);
    open' := OpenAfter(here, open);
    assert Events(parse, f, Cursor(lo, hi)) == here + Events(parse, f, Cursor(hi, hi + BLOCK_SIZE)) by {
      BlockLocal(parse, f, lo, f[lo..hi], 0);
    }
    AssembleConcat(here, Events(parse, f, Cursor(hi, hi + BLOCK_SIZE)), open);
  }

  /** From the start of the log to the damaged block. */
  lemma {:induction false} ReadToBlock(parse: Parser, frame: Framer, entries: seq<Bytestring>, f: Bytestring, lo: nat, b: nat, k: nat)
    returns (open: Option<Bytestring>)
    requires Accepts(parse, frame) && lo == BlockAt(b)
    requires k < |entries| && EntryAt(frame, entries, k) <= lo < EntryAt(frame, entries, k + 1)
    requires lo <= |f| == |Log(frame, entries).bytes| && f[..lo] == Log(frame, entries).bytes[..lo]
    ensures Entries(parse, f) == entries[..k] + Assemble(Events(parse, f, Cursor(lo, lo + BLOCK_SIZE)), open)
  {
    var w := LogTo(frame, entries, k);
    LogNext(frame, entries, k);
    HeldBefore(frame, entries, f, lo, k);
    WriteFirstIs(EntryEncoder(frame), START, entries, k);
    EntriesReadBack(parse, frame, f);
    ReadRun(parse, f, EntryEncoder(frame), START, entries[..k]);
    var d := LogStaysAhead(frame, entries, k, lo, b);
    open := ReachBlock(parse, frame, f, w.cursor, entries[k], true, None, lo, d);
  }

  lemma {:induction false} HeldBefore(frame: Framer, entries: seq<Bytestring>, f: Bytestring, lo: nat, k: nat)
    requires k < |entries| && EntryAt(frame, entries, k) <= lo < EntryAt(frame, entries, k + 1)
    requires lo <= |f| == |Log(frame, entries).bytes| && f[..lo] == Log(frame, entries).bytes[..lo]
    ensures var w := LogTo(frame, entries, k);
            && w.cursor.Valid() && w.cursor.at == |w.bytes|
            && Holds(f, 0, w.bytes) && HoldsUpTo(f, |w.bytes|, Encode(frame, w.cursor, entries[k], true).bytes, lo)
  {
    LogNext(frame, entries, k);
    LogSplit(frame, entries, k + 1);
    var w, x := LogTo(frame, entries, k), LogTo(frame, entries, k + 1);
    SplitUpTo(f, w.bytes, Encode(frame, w.cursor, entries[k], true).bytes,
              WriteAll(EntryEncoder(frame), x.cursor, entries[k + 1..]).bytes, lo);
  }

  lemma SplitUpTo(f: Bytestring, a: Bytestring, b: Bytestring, t: Bytestring, lo: nat)
    requires |a| <= lo <= |a| + |b| && lo <= |f| && f[..lo] == (a + b + t)[..lo]
    ensures Holds(f, 0, a) && HoldsUpTo(f, |a|, b, lo)
  {
    var r := f[..lo];
    assert r[..|a|] == a && r[|a|..] == b[..lo - |a|];
    assert f[0..|a|] == r[..|a|] && f[|a|..lo] == r[|a|..];
  }

  /** From the end of the damaged block to the end of the log. */
  lemma {:induction false} ReadFromBlock(
    parse: Parser, frame: Framer, entries: seq<Bytestring>, f: Bytestring, hi: nat, b: nat, k: nat,
    open: Option<Bytestring>) returns (junk: seq<Bytestring>)
    requires Accepts(parse, frame) && Padded(frame) && hi == BlockAt(b) && 0 < k <= |entries|
    requires FirstFragmentAt(frame, entries, k - 1) < hi <= FirstFragmentAt(frame, entries, k)
    requires hi <= |f| == |Log(frame, entries).bytes| && f[hi..] == Log(frame, entries).bytes[hi..]
    ensures Assemble(Events(parse, f, Cursor(hi, hi + BLOCK_SIZE)), open) == junk + entries[k..] && (open.None? ==> junk == [])
  {
    var c, d := EntryBefore(frame, entries, k, hi, b);
    junk := ReadPast(parse, frame, f, Log(frame, entries).bytes, c, entries[k - 1], entries[k..], open, hi, d);
  }

  /** Where the entry in front of entry `k` was written. */
  lemma {:induction false} EntryBefore(frame: Framer, entries: seq<Bytestring>, k: nat, hi: nat, b: nat) returns (c: Cursor, d: int)
    requires hi == BlockAt(b) && 0 < k <= |entries|
    ensures Ahead(c, hi, d) && c.Aligned().at == FirstFragmentAt(frame, entries, k - 1)
    ensures Encode(frame, c, entries[k - 1], true).cursor.Aligned().at == FirstFragmentAt(frame, entries, k)
    ensures WrittenFrom(frame, Log(frame, entries).bytes, c, Encode(frame, c, entries[k - 1], true), entries[k..])
  {
    c := LogTo(frame, entries, k - 1).cursor;
    LogFromEntry(frame, entries, k);
    d := LogStaysAhead(frame, entries, k - 1, hi, b);
  }

  /** Past the boundary, after an entry that ended before it or ran across it. */
  lemma {:induction false} ReadPast(
    parse: Parser, frame: Framer, f: Bytestring, g: Bytestring, c: Cursor, e: Bytestring,
    later: seq<Bytestring>, open: Option<Bytestring>, hi: nat, d: int) returns (junk: seq<Bytestring>)
    requires Accepts(parse, frame) && Padded(frame) && Ahead(c, hi, d)
    requires |g| == |f| && hi <= |f| && f[hi..] == g[hi..]
    requires WrittenFrom(frame, g, c, Encode(frame, c, e, true), later)
    requires c.Aligned().at < hi <= Encode(frame, c, e, true).cursor.Aligned().at
    ensures Assemble(Events(parse, f, Cursor(hi, hi + BLOCK_SIZE)), open) == junk + later && (open.None? ==> junk == [])
  {
    if Encode(frame, c, e, true).cursor.at <= hi {
      ReadPastEnded(parse, frame, f, g, c, e, later, open, hi, d);
      junk := [];
    } else {
      junk := ReadPastSpilled(parse, frame, f, g, c, e, later, open, hi, d);
    }
  }

  lemma {:induction false} LogFromEntry(frame: Framer, entries: seq<Bytestring>, k: nat)
    requires 0 < k <= |entries|
    ensures var c := LogTo(frame, entries, k - 1).cursor;
            && c.Valid()
            && var w := Encode(frame, c, entries[k - 1], true);
            && LogTo(frame, entries, k).cursor == w.cursor
            && WrittenFrom(frame, Log(frame, entries).bytes, c, w, entries[k..])
  {
    var w := LogTo(frame, entries, k - 1);
    var es := entries[k - 1..];
    LogSplit(frame, entries, k - 1);
    LogNext(frame, entries, k - 1);
    DropHead(w.bytes, WriteAll(EntryEncoder(frame), w.cursor, es).bytes, |w.bytes|);
    assert es[0] == entries[k - 1] && es[1..] == entries[k..];
    FirstOf(frame, w.cursor, es);
  }

  /** The records of the first `b` blocks. */
  function FirstBlocks(parse: Parser, f: Bytestring, b: nat): seq<Event>
    requires BlockAt(b) <= |f|
  {
    if b == 0 then []
    else FirstBlocks(parse, f, b - 1) + BlockEvents(parse, f[BlockAt(b - 1)..BlockAt(b)], 0)
  }

  lemma {:induction false} BlockByBlock(parse: Parser, f: Bytestring, c: Cursor, b: nat)
    requires BlockAt(b) <= |f| && c.at == 0 && c.end == BLOCK_SIZE
    ensures Events(parse, f, c) ==
            FirstBlocks(parse, f, b) + Events(parse, f, Cursor(BlockAt(b), BlockAt(b) + BLOCK_SIZE))
  {
    if b == 0 {
      assert Cursor(BlockAt(b), BlockAt(b) + BLOCK_SIZE) == c;
    } else {
      BlockByBlock(parse, f, c, b - 1);
      OneMoreBlock(parse, f, BlockAt(b - 1), BlockAt(b), Events(parse, f, c), FirstBlocks(parse, f, b - 1));
    }
  }

  lemma {:induction false} OneMoreBlock(parse: Parser, f: Bytestring, lo: nat, hi: nat, all: seq<Event>, before: seq<Event>)
    requires hi == lo + BLOCK_SIZE <= |f| && all == before + Events(parse, f, Cursor(lo, hi))
    ensures all == (before + BlockEvents(parse, f[lo..hi], 0)) + Events(parse, f, Cursor(hi, hi + BLOCK_SIZE))
  {
    var here, later := BlockThenRest(parse, f, lo, hi);
    JoinEvents(all, before, Events(parse, f, Cursor(lo, hi)), here, later);
  }

  lemma {:induction false} BlockThenRest(parse: Parser, f: Bytestring, lo: nat, hi: nat) returns (here: seq<Event>, later: seq<Event>)
    requires hi == lo + BLOCK_SIZE <= |f|
    ensures here == BlockEvents(parse, f[lo..hi], 0) && later == Events(parse, f, Cursor(hi, hi + BLOCK_SIZE))
    ensures Events(parse, f, Cursor(lo, hi)) == here + later
  {
    BlockLocal(parse, f, lo, f[lo..hi], 0);
    here, later := BlockEvents(parse, f[lo..hi], 0), Events(parse, f, Cursor(hi, hi + BLOCK_SIZE));
  }

  lemma JoinEvents(all: seq<Event>, a: seq<Event>, bc: seq<Event>, b: seq<Event>, c: seq<Event>)
    requires all == a + bc && bc == b + c
    ensures all == (a + b) + c
  {
  }

  lemma {:induction false} SameFirstBlocks(parse: Parser, f: Bytestring, g: Bytestring, b: nat)
    requires BlockAt(b) <= |f| && BlockAt(b) <= |g| && f[..BlockAt(b)] == g[..BlockAt(b)]
    ensures FirstBlocks(parse, f, b) == FirstBlocks(parse, g, b)
  {
    if b > 0 {
      var lo, hi := BlockAt(b - 1), BlockAt(b);
      assert f[lo..hi] == f[..hi][lo..] && g[lo..hi] == g[..hi][lo..];
      assert f[..lo] == f[..hi][..lo] && g[..lo] == g[..hi][..lo];
      SameFirstBlocks(parse, f, g, b - 1);
    }
  }

  /**
   * The condition of `DamagedBlock` is needed: once a record in the first `b`
   * blocks claims to be of type `EOF_TYPE` and passes the test, the entries read
   * do not depend on anything after those blocks.
   */
  lemma {:induction false} EofRecordEndsLog(parse: Parser, f: Bytestring, g: Bytestring, b: nat)
    requires BlockAt(b) <= |f| && BlockAt(b) <= |g| && f[..BlockAt(b)] == g[..BlockAt(b)]
    requires !NoEofRecord(FirstBlocks(parse, f, b))
    ensures Entries(parse, f) == Entries(parse, g)
  {
    BlockByBlock(parse, f, START, b);
    BlockByBlock(parse, g, START, b);
    SameFirstBlocks(parse, f, g, b);
    var first, c := FirstBlocks(parse, f, b), Cursor(BlockAt(b), BlockAt(b) + BLOCK_SIZE);
    EofRecordHidesRest(first, Events(parse, f, c), None);
    EofRecordHidesRest(first, Events(parse, g, c), None);
  }

  /** The damaged file that shows it: the first block begins with a sealed record of type `EOF_TYPE`. */
  function EofFile(seal: Seal, log: Bytestring): Bytestring
    requires |log| >= BLOCK_SIZE
  {
    RecordBytes(seal, EOF_TYPE, []) + Zeros(BLOCK_SIZE - HEADER_SIZE) + log[BLOCK_SIZE..]
  }

  /** Only the first block of a log is damaged, and yet no entry at all is read. */
  lemma {:induction false} EofRecordCostsAll(seal: Seal, checksum: bool, log: Bytestring)
    requires seal.Lawful() && |log| >= BLOCK_SIZE
    ensures SameOutside(EofFile(seal, log), log, BlockAt(0), BlockAt(1))
    ensures !NoEofInBlock(LogParser(seal, checksum), EofFile(seal, log), 0)
    ensures Entries(LogParser(seal, checksum), EofFile(seal, log)) == []
  {
    var f, parse, record, fill := EofFile(seal, log), LogParser(seal, checksum), RecordBytes(seal, EOF_TYPE, []), Zeros(BLOCK_SIZE - HEADER_SIZE);
    var block := record + fill;
    assert f == block + log[BLOCK_SIZE..] && |block| == BLOCK_SIZE;
    assert f[..BlockAt(1)] == block && f[BlockAt(1)..] == log[BlockAt(1)..] && f[..0] == log[..0];
    ParseRecord(TestOf(seal, checksum), seal, EOF_TYPE, [], fill, true);
    assert f[0..BlockAt(1)] == block && block[0..] == block;
    BlockEventsByParse(parse, block, 0, Take(EOF_TYPE, []));
    assert BlockEvents(parse, block, 0)[0] == Event(EOF_TYPE, []);
    assert Rest(f, START) == block;
    EventsByParse(parse, f, START, Take(EOF_TYPE, []));
  }
}
