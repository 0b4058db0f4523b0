// Damage that the reader notices: nothing is returned that was not written.
module WalDetected {
  import opened Bytes
  import opened Coding
  import opened WalSeal
  import opened WalFormat
  import opened WalReader
  import opened WalTheorems
  import opened WalDamage

  // ------------------------------------------------------------ logs hold no end marker

  lemma {:induction false} LogExtends(frame: Framer, entries: seq<Bytestring>, e: Bytestring)
    ensures var log, more := Log(frame, entries).bytes, Log(frame, entries + [e]).bytes;
            |log| <= |more| && more[..|log|] == log
  {
    var all := entries + [e];
    SamePrefix(frame, entries, all, |entries|);
    LogNext(frame, all, |entries|);
  }

  lemma {:induction false} SamePrefix(frame: Framer, a: seq<Bytestring>, b: seq<Bytestring>, k: nat)
    requires k <= |a| && k <= |b| && forall i | 0 <= i < k :: a[i] == b[i]
    ensures LogTo(frame, a, k) == LogTo(frame, b, k)
    decreases k
  {
    if k > 0 {
      SamePrefix(frame, a, b, k - 1);
      LogNext(frame, a, k - 1);
      LogNext(frame, b, k - 1);
    }
  }

  /** No record in a complete block of a log ends it: one more entry could be written and read. */
  lemma {:induction false} LogHasNoEof(parse: Parser, frame: Framer, entries: seq<Bytestring>, b: nat)
    requires Accepts(parse, frame) && BlockAt(b) <= |Log(frame, entries).bytes|
    ensures NoEofRecord(FirstBlocks(parse, Log(frame, entries).bytes, b))
  {
    var log, more := Log(frame, entries).bytes, Log(frame, entries + [[]]).bytes;
    if !NoEofRecord(FirstBlocks(parse, log, b)) {
      LogExtends(frame, entries, []);
      assert more[..BlockAt(b)] == more[..|log|][..BlockAt(b)] == log[..BlockAt(b)];
      EofRecordEndsLog(parse, log, more, b);
      ReadAll(parse, frame, entries);
      ReadAll(parse, frame, entries + [[]]);
    }
  }

  // ------------------------------------------------------------ records cut short

  /** A bad record closes what is open and adds no entry. */
  lemma {:induction false} BadCloses(a: seq<Event>, open: Option<Bytestring>)
    ensures OpenAfter(a + [BAD], open) == None && Assemble(a + [BAD], open) == Assemble(a, open)
    decreases |a|
  {
    if a == [] {
      assert a + [BAD] == [BAD] && [BAD][1..] == [];
    } else {
      assert (a + [BAD])[0] == a[0] && (a + [BAD])[1..] == a[1..] + [BAD];
      var Event(t, data) := a[0];
      BadCloses(a[1..], if t == FIRST_TYPE then Some(data)
                        else if t == MIDDLE_TYPE && open.Some? then Some(open.value + data)
                        else None);
    }
  }

  lemma AssembleThree(a: seq<Event>, b: seq<Event>, c: seq<Event>, open: Option<Bytestring>)
    requires NoEofRecord(a) && NoEofRecord(b)
    ensures var mid := OpenAfter(a, open);
            Assemble(a + (b + c), open) == Assemble(a, open) + (Assemble(b, mid) + Assemble(c, OpenAfter(b, mid)))
  {
    AssembleConcat(a, b + c, open);
    AssembleConcat(b, c, OpenAfter(a, open));
  }

  lemma TakeMiddle(p: seq<Bytestring>, q: seq<Bytestring>, r: seq<Bytestring>, j: seq<Bytestring>,
                   entries: seq<Bytestring>, k: nat)
    requires k <= |entries| && entries == p + ((q + r) + (j + entries[k..]))
    ensures |p| + |q| <= k && p + q == entries[..|p| + |q|]
  {
    assert |entries[k..]| == |entries| - k;
    assert entries == (p + q) + (r + (j + entries[k..]));
  }

  /** The records `a` and `z` of a block are cut short by a bad one behind `a`, and nothing is open behind it. */
  lemma {:induction false} CutShort(first: seq<Event>, a: seq<Event>, z: seq<Event>, later: seq<Event>, later': seq<Event>,
                                    entries: seq<Bytestring>, k: nat, junk: seq<Bytestring>) returns (m: nat)
    requires NoEofRecord(first) && NoEofRecord(a) && NoEofRecord(a + z) && k <= |entries|
    requires Assemble(first + ((a + z) + later), None) == entries
    requires Assemble(later, OpenAfter(a + z, OpenAfter(first, None))) == junk + entries[k..]
    requires Assemble(later', None) == entries[k..]
    ensures m <= k && Assemble(first + ((a + [BAD]) + later'), None) == entries[..m] + entries[k..]
  {
    var open := OpenAfter(first, None);
    var p, q, r, tail := Assemble(first, None), Assemble(a, open), Assemble(z, OpenAfter(a, open)), entries[k..];
    AssembleThree(first, a + z, later, None);
    AssembleConcat(a, z, open);
    TakeMiddle(p, q, r, junk, entries, k);
    m := |p| + |q|;
    AfterBad(first, a, later');
    Reassociate(p, q, tail);
  }

  lemma {:induction false} AfterBad(first: seq<Event>, a: seq<Event>, later: seq<Event>)
    requires NoEofRecord(first) && NoEofRecord(a)
    ensures Assemble(first + ((a + [BAD]) + later), None) ==
            Assemble(first, None) + (Assemble(a, OpenAfter(first, None)) + Assemble(later, None))
  {
    assert NoEofRecord(a + [BAD]);
    AssembleThree(first, a + [BAD], later, None);
    BadCloses(a, OpenAfter(first, None));
  }

  lemma Reassociate(p: seq<Bytestring>, q: seq<Bytestring>, r: seq<Bytestring>)
    ensures p + (q + r) == (p + q) + r
  {
  }

  /** The first records of what is left give the first entries of it. */
  lemma {:induction false} FirstAssembled(first: seq<Event>, here: seq<Event>, n: nat, entries: seq<Bytestring>) returns (m: nat)
    requires NoEofRecord(first) && n <= |here| && Assemble(first + here, None) == entries
    ensures m <= |entries| && Assemble(first + here[..n], None) == entries[..m]
    ensures Assemble(first + (here[..n] + [BAD]), None) == entries[..m]
  {
    var open := OpenAfter(first, None);
    assert here == here[..n] + here[n..];
    AssembleConcat(first, here, None);
    AssembleConcat(first, here[..n], None);
    AssembleConcat(first, here[..n] + [BAD], None);
    BadCloses(here[..n], open);
    if NoEofRecord(here[..n]) {
      AssembleConcat(here[..n], here[n..], open);
    } else {
      EofRecordHidesRest(here[..n], here[n..], open);
    }
    m := |Assemble(first + here[..n], None)|;
  }

  // ------------------------------------------------------------ damage that is noticed

  /** The records that the reader finds in a block, or from it on if it is the incomplete last one. */
  function Found(parse: Parser, f: Bytestring, b: nat): seq<Event>
    requires BlockAt(b) <= |f|
  {
    if BlockAt(b + 1) <= |f| then BlockEvents(parse, f[BlockAt(b)..BlockAt(b + 1)], 0)
    else Events(parse, f, Cursor(BlockAt(b), BlockAt(b) + BLOCK_SIZE))
  }

  /** The reader finds the first `n` of the records written, and then a bad one or the end of the file. */
  ghost predicate FoundFirst(found: seq<Event>, written: seq<Event>, whole: bool, n: nat) {
    n <= |written| && (found == written[..n] + [BAD] || (!whole && found == written[..n]))
  }

  /** The damage is noticed: no record is found in the block that was not written there. */
  ghost predicate Noticed(found: seq<Event>, written: seq<Event>, whole: bool) {
    found == written || exists n :: 0 <= n && FoundFirst(found, written, whole, n)
  }

  lemma SliceOfTail(f: Bytestring, hi: nat, a: nat, z: nat)
    requires hi <= a <= z <= |f|
    ensures f[a..z] == f[hi..][a - hi..z - hi]
  {
  }

  lemma {:induction false} SameEvents(parse: Parser, f: Bytestring, g: Bytestring, hi: nat, c: Cursor)
    requires |f| == |g| && hi <= |f| && f[hi..] == g[hi..] && c.Valid() && hi <= c.at <= |f|
    ensures Events(parse, f, c) == Events(parse, g, c)
    decreases |f| - c.at, if c.at == c.end then 1 else 0
  {
    SliceOfTail(f, hi, c.at, Min(c.end, |f|));
    SliceOfTail(g, hi, c.at, Min(c.end, |g|));
    match parse(Rest(f, c), c.end <= |f|)
    case Skip => SameEvents(parse, f, g, hi, Cursor(c.end, c.end + BLOCK_SIZE));
    case Stop =>
    case Drop => SameEvents(parse, f, g, hi, Cursor(Min(c.end, |f|), c.end));
    case Take(t, data) => SameEvents(parse, f, g, hi, c.Advance(HEADER_SIZE + |data|));
  }

  lemma {:induction false} EventsInParts(parse: Parser, f: Bytestring, b: nat) returns (first: seq<Event>, here: seq<Event>, later: seq<Event>)
    requires BlockAt(b + 1) <= |f|
    ensures first == FirstBlocks(parse, f, b) && here == Found(parse, f, b) && FirstBlocks(parse, f, b + 1) == first + here
    ensures later == Events(parse, f, Cursor(BlockAt(b + 1), BlockAt(b + 1) + BLOCK_SIZE))
    ensures Entries(parse, f) == Assemble(first + (here + later), None)
  {
    BlockByBlock(parse, f, START, b);
    here, later := BlockThenRest(parse, f, BlockAt(b), BlockAt(b + 1));
    first := FirstBlocks(parse, f, b);
  }

  /** Behind the block the reader goes on with entry `k`, and with nothing before it if nothing is open. */
  lemma {:induction false} ReadBehind(parse: Parser, frame: Framer, entries: seq<Bytestring>, f: Bytestring, hi: nat, b: nat, k: nat, open: Option<Bytestring>)
    returns (junk: seq<Bytestring>)
    requires Accepts(parse, frame) && Padded(frame) && hi == BlockAt(b + 1) <= |f| == |Log(frame, entries).bytes|
    requires f[hi..] == Log(frame, entries).bytes[hi..] && FirstAfter(frame, entries, f, b, k)
    ensures k <= |entries| && (open.None? ==> junk == [])
    ensures Assemble(Events(parse, f, Cursor(hi, hi + BLOCK_SIZE)), open) == junk + entries[k..]
  {
    junk := ReadFromBlock(parse, frame, entries, f, hi, b + 1, k, open);
  }

  /** The records of a log and of the damaged file, which differ where the damage was noticed. */
  lemma {:induction false} CutParts(parse: Parser, frame: Framer, entries: seq<Bytestring>, f: Bytestring, g: Bytestring, hi: nat, b: nat, n: nat)
    returns (first: seq<Event>, a: seq<Event>, z: seq<Event>, later: seq<Event>, later': seq<Event>)
    requires Accepts(parse, frame) && g == Log(frame, entries).bytes && hi == BlockAt(b + 1) <= |f|
    requires SameOutside(f, g, BlockAt(b), hi) && FoundFirst(Found(parse, f, b), Found(parse, g, b), true, n)
    ensures NoEofRecord(first) && NoEofRecord(a) && NoEofRecord(a + z)
    ensures later == Events(parse, g, Cursor(hi, hi + BLOCK_SIZE)) && later' == Events(parse, f, Cursor(hi, hi + BLOCK_SIZE))
    ensures entries == Assemble(first + ((a + z) + later), None)
    ensures Entries(parse, f) == Assemble(first + ((a + [BAD]) + later'), None)
  {
    var here, first', here';
    first, here, later := LogInParts(parse, frame, entries, g, b);
    first', here', later' := EventsInParts(parse, f, b);
    SameFirstBlocks(parse, f, g, b);
    a, z := HereParts(here', here, n);
    PartsHaveNoEof(first, a, z);
  }

  lemma HereParts(found: seq<Event>, written: seq<Event>, n: nat) returns (a: seq<Event>, z: seq<Event>)
    requires FoundFirst(found, written, true, n)
    ensures written == a + z && found == a + [BAD]
  {
    a, z := written[..n], written[n..];
  }

  lemma {:induction false} LogInParts(parse: Parser, frame: Framer, entries: seq<Bytestring>, g: Bytestring, b: nat)
    returns (first: seq<Event>, here: seq<Event>, later: seq<Event>)
    requires Accepts(parse, frame) && g == Log(frame, entries).bytes && BlockAt(b + 1) <= |g|
    ensures first == FirstBlocks(parse, g, b) && here == Found(parse, g, b) && NoEofRecord(first + here)
    ensures later == Events(parse, g, Cursor(BlockAt(b + 1), BlockAt(b + 1) + BLOCK_SIZE))
    ensures entries == Assemble(first + (here + later), None)
  {
    first, here, later := EventsInParts(parse, g, b);
    LogHasNoEof(parse, frame, entries, b + 1);
    ReadAll(parse, frame, entries);
  }

  /** A complete block in which the reader finds only the first records that were written there. */
  lemma {:induction false} NoticedCut(parse: Parser, frame: Framer, entries: seq<Bytestring>, f: Bytestring, g: Bytestring, hi: nat, b: nat,
                                      k: nat, n: nat) returns (m: nat)
    requires Accepts(parse, frame) && Padded(frame) && g == Log(frame, entries).bytes && hi == BlockAt(b + 1) <= |f|
    requires SameOutside(f, g, BlockAt(b), hi) && FirstAfter(frame, entries, f, b, k)
    requires FoundFirst(Found(parse, f, b), Found(parse, g, b), true, n)
    ensures m <= k <= |entries| && Entries(parse, f) == entries[..m] + entries[k..]
  {
    var first, a, z, later, later' := CutParts(parse, frame, entries, f, g, hi, b, n);
    var open := OpenAfter(a + z, OpenAfter(first, None));
    var junk := ReadBehind(parse, frame, entries, g, hi, b, k, open);
    var none := ReadBehind(parse, frame, entries, f, hi, b, k, None);
    m := CutShort(first, a, z, later, later', entries, k, junk);
  }

  lemma PartsHaveNoEof(first: seq<Event>, a: seq<Event>, z: seq<Event>)
    requires NoEofRecord(first + (a + z))
    ensures NoEofRecord(first) && NoEofRecord(a) && NoEofRecord(a + z)
  {
    var all := first + (a + z);
    assert forall e | e in a + z :: e in all;
    assert forall e | e in first :: e in all;
    assert forall e | e in a :: e in a + z;
  }

  /** Bytes that the reader does not look at. */
  lemma {:induction false} NothingLost(parse: Parser, frame: Framer, entries: seq<Bytestring>, f: Bytestring, b: nat)
    requires Accepts(parse, frame) && BlockAt(b) <= |f|
    requires SameOutside(f, Log(frame, entries).bytes, BlockAt(b), BlockEnd(f, b))
    requires Found(parse, f, b) == Found(parse, Log(frame, entries).bytes, b)
    ensures Entries(parse, f) == entries
  {
    var g := Log(frame, entries).bytes;
    ReadAll(parse, frame, entries);
    SameFirstBlocks(parse, f, g, b);
    if BlockAt(b + 1) <= |f| {
      var first, here, later := EventsInParts(parse, g, b);
      var first', here', later' := EventsInParts(parse, f, b);
      SameEvents(parse, f, g, BlockAt(b + 1), Cursor(BlockAt(b + 1), BlockAt(b + 1) + BLOCK_SIZE));
    } else {
      BlockByBlock(parse, f, START, b);
      BlockByBlock(parse, g, START, b);
    }
  }

  /** The incomplete last block. */
  lemma {:induction false} NoticedLast(parse: Parser, frame: Framer, entries: seq<Bytestring>, f: Bytestring, b: nat, n: nat)
    returns (m: nat)
    requires Accepts(parse, frame) && BlockAt(b) <= |f| < BlockAt(b + 1)
    requires SameOutside(f, Log(frame, entries).bytes, BlockAt(b), |f|)
    requires FoundFirst(Found(parse, f, b), Found(parse, Log(frame, entries).bytes, b), false, n)
    ensures m <= |entries| && Entries(parse, f) == entries[..m]
  {
    var g := Log(frame, entries).bytes;
    ReadAll(parse, frame, entries);
    SameFirstBlocks(parse, f, g, b);
    LogHasNoEof(parse, frame, entries, b);
    BlockByBlock(parse, f, START, b);
    BlockByBlock(parse, g, START, b);
    m := FirstAssembled(FirstBlocks(parse, g, b), Found(parse, g, b), n, entries);
  }

  /** One block of a log is damaged, and the reader finds no record in it that was not written there. */
  ghost predicate NoticedIn(parse: Parser, f: Bytestring, g: Bytestring, b: nat) {
    && BlockAt(b) < |f| && SameOutside(f, g, BlockAt(b), BlockEnd(f, b))
    && Noticed(Found(parse, f, b), Found(parse, g, b), BlockAt(b + 1) <= |f|)
  }

  /**
   * Where the damage to a block is noticed, the reader returns nothing that was not
   * written: the entries up to some entry that touches the block, and all those
   * whose first fragment starts after it.
   */
  lemma {:induction false} NoticedDamage(parse: Parser, frame: Framer, entries: seq<Bytestring>, f: Bytestring, b: nat)
    returns (k1: nat, m: nat, k2: nat)
    requires Accepts(parse, frame) && Padded(frame) && NoticedIn(parse, f, Log(frame, entries).bytes, b)
    ensures k1 <= m <= k2 <= |entries| && k1 < |entries|
    ensures EntryAt(frame, entries, k1) <= BlockAt(b) < EntryAt(frame, entries, k1 + 1)
    ensures FirstAfter(frame, entries, f, b, k2) && Entries(parse, f) == entries[..m] + entries[k2..]
  {
    var junk, g := [], Log(frame, entries).bytes;
    NoticedHasNoEof(parse, frame, entries, f, g, b);
    k1, k2, junk := DamagedBlock(parse, frame, entries, f, b);
    m := NoticedUpTo(parse, frame, entries, f, g, b, k2);
    LongerPart(entries, k1, junk, m, k2);
  }

  lemma LongerPart(entries: seq<Bytestring>, k1: nat, junk: seq<Bytestring>, m: nat, k2: nat)
    requires k1 < |entries| && m <= k2 <= |entries| && entries[..k1] + junk + entries[k2..] == entries[..m] + entries[k2..]
    ensures k1 <= m
  {
    assert |entries[..k1] + junk + entries[k2..]| == |entries[..m] + entries[k2..]|;
  }

  lemma {:induction false} NoticedUpTo(parse: Parser, frame: Framer, entries: seq<Bytestring>, f: Bytestring, g: Bytestring, b: nat, k: nat)
    returns (m: nat)
    requires Accepts(parse, frame) && Padded(frame) && g == Log(frame, entries).bytes && NoticedIn(parse, f, g, b)
    requires FirstAfter(frame, entries, f, b, k) && k <= |entries|
    ensures m <= k && Entries(parse, f) == entries[..m] + entries[k..]
  {
    var whole := BlockAt(b + 1) <= |f|;
    if Found(parse, f, b) == Found(parse, g, b) {
      NothingLost(parse, frame, entries, f, b);
      m := k;
    } else {
      var n: nat :| FoundFirst(Found(parse, f, b), Found(parse, g, b), whole, n);
      if whole {
        m := NoticedCut(parse, frame, entries, f, g, BlockAt(b + 1), b, k, n);
      } else {
        m := NoticedLast(parse, frame, entries, f, b, n);
        assert entries[k..] == [];
      }
    }
  }

  lemma {:induction false} NoticedHasNoEof(parse: Parser, frame: Framer, entries: seq<Bytestring>, f: Bytestring, g: Bytestring, b: nat)
    requires Accepts(parse, frame) && g == Log(frame, entries).bytes && NoticedIn(parse, f, g, b)
    ensures NoEofInBlock(parse, f, b)
  {
    if BlockAt(b + 1) <= |f| {
      var first, here, later := LogInParts(parse, frame, entries, g, b);
      NoEofNoticed(first, here, Found(parse, f, b));
    }
  }

  lemma NoEofNoticed(first: seq<Event>, written: seq<Event>, found: seq<Event>)
    requires NoEofRecord(first + written) && Noticed(found, written, true)
    ensures NoEofRecord(found)
  {
    forall e | e in found
      ensures e.t != EOF_TYPE
    {
      assert e == BAD || e in written;
      assert e in written ==> e in first + written;
    }
  }

  /** The log that the writer writes, read by the reader. */
  lemma {:induction false} NoticedLogDamage(seal: Seal, checksum: bool, entries: seq<Bytestring>, f: Bytestring, b: nat)
    returns (k1: nat, m: nat, k2: nat)
    requires seal.Lawful() && NoticedIn(LogParser(seal, checksum), f, Log(FramerOf(seal), entries).bytes, b)
    ensures k1 <= m <= k2 <= |entries| && k1 < |entries|
    ensures EntryAt(FramerOf(seal), entries, k1) <= BlockAt(b) < EntryAt(FramerOf(seal), entries, k1 + 1)
    ensures FirstAfter(FramerOf(seal), entries, f, b, k2)
    ensures Entries(LogParser(seal, checksum), f) == entries[..m] + entries[k2..]
  {
    LogParserAccepts(seal, checksum);
    LogFramerPadded(seal);
    k1, m, k2 := NoticedDamage(LogParser(seal, checksum), FramerOf(seal), entries, f, b);
  }

  // ------------------------------------------------------------ what the test notices

  /** Taking the records of a complete block from offset `j` on leads to offset `i`. */
  ghost predicate TakesTo(parse: Parser, block: Bytestring, j: nat, i: nat)
    requires j <= |block|
    decreases |block| - j
  {
    var r := parse(block[j..], true);
    j == i || (r.Take? && TakesTo(parse, block, j + HEADER_SIZE + |r.data|, i))
  }

  /** A record is parsed from its own bytes. */
  lemma ParseLocal(ok: Test, a: Bytestring, b: Bytestring)
    requires |a| == |b| && Parse(ok, a, true).Take?
    requires var n := HEADER_SIZE + |Parse(ok, a, true).data|; a[..n] == b[..n]
    ensures Parse(ok, b, true) == Parse(ok, a, true)
  {
    var n := HEADER_SIZE + |Parse(ok, a, true).data|;
    assert n == HEADER_SIZE + LengthField(a);
    assert forall i | 0 <= i < n :: a[i] == a[..n][i] == b[..n][i] == b[i];
    assert a[..4] == b[..4] && a[6..n] == b[6..n] && a[HEADER_SIZE..n] == b[HEADER_SIZE..n];
  }

  lemma TakesForward(parse: Parser, block: Bytestring, j: nat, i: nat)
    requires j <= |block| && TakesTo(parse, block, j, i)
    ensures j <= i <= |block|
    decreases |block| - j
  {
    if j != i {
      TakesForward(parse, block, j + HEADER_SIZE + |parse(block[j..], true).data|, i);
    }
  }

  /** A block whose first damaged record fails the test: the records before it are found, and then a bad one. */
  lemma {:induction false} TestFails(ok: Test, x: Bytestring, y: Bytestring, j: nat, i: nat) returns (n: nat)
    requires |x| == |y| && j <= i <= |x| && x[..i] == y[..i]
    requires TakesTo(ParserOf(ok), x, j, i) && Parse(ok, y[i..], true).Drop?
    ensures FoundFirst(BlockEvents(ParserOf(ok), y, j), BlockEvents(ParserOf(ok), x, j), true, n)
    decreases |x| - j
  {
    var parse := ParserOf(ok);
    if j == i {
      n := 0;
      BlockEventsByParse(parse, y, j, parse(y[j..], true));
    } else {
      var e, next := SameRecord(ok, parse, x, y, j, i);
      var m := TestFails(ok, x, y, next, i);
      n := m + 1;
      OneMoreFound(e, BlockEvents(parse, y, next), BlockEvents(parse, x, next), m);
    }
  }

  /** Before the damage both blocks hold the same record. */
  lemma {:induction false} SameRecord(ok: Test, parse: Parser, x: Bytestring, y: Bytestring, j: nat, i: nat)
    returns (e: Event, next: nat)
    requires parse == ParserOf(ok) && |x| == |y| && j < i <= |x| && x[..i] == y[..i] && TakesTo(parse, x, j, i)
    ensures j < next <= i && TakesTo(parse, x, next, i)
    ensures BlockEvents(parse, x, j) == [e] + BlockEvents(parse, x, next)
    ensures BlockEvents(parse, y, j) == [e] + BlockEvents(parse, y, next)
  {
    var r := parse(x[j..], true);
    e, next := Event(r.t, r.data), j + HEADER_SIZE + |r.data|;
    TakesForward(parse, x, next, i);
    SameSlice(x, y, i, j, next);
    ParseLocal(ok, x[j..], y[j..]);
    BlockEventsByParse(parse, x, j, r);
    BlockEventsByParse(parse, y, j, r);
  }

  lemma SameSlice(x: Bytestring, y: Bytestring, i: nat, j: nat, next: nat)
    requires |x| == |y| && j <= next <= i <= |x| && x[..i] == y[..i]
    ensures x[j..][..next - j] == y[j..][..next - j]
  {
    assert x[j..][..next - j] == x[..i][j..next] && y[j..][..next - j] == y[..i][j..next];
  }

  lemma OneMoreFound(e: Event, found: seq<Event>, written: seq<Event>, m: nat)
    requires FoundFirst(found, written, true, m)
    ensures FoundFirst([e] + found, [e] + written, true, m + 1)
  {
    assert ([e] + written)[..m + 1] == [e] + written[..m];
  }

  /** Damage to a complete block is noticed if the first record that it touches fails the test. */
  lemma {:induction false} RejectedIsNoticed(ok: Test, f: Bytestring, g: Bytestring, b: nat, x: Bytestring, y: Bytestring, i: nat)
    requires BlockAt(b + 1) <= |f| && SameOutside(f, g, BlockAt(b), BlockAt(b + 1)) && i <= BLOCK_SIZE
    requires x == g[BlockAt(b)..BlockAt(b + 1)] && y == f[BlockAt(b)..BlockAt(b + 1)]
    requires x[..i] == y[..i] && TakesTo(ParserOf(ok), x, 0, i) && Parse(ok, y[i..], true).Drop?
    ensures NoticedIn(ParserOf(ok), f, g, b)
  {
    var n := TestFails(ok, x, y, 0, i);
    assert FoundFirst(Found(ParserOf(ok), f, b), Found(ParserOf(ok), g, b), true, n);
  }
}
