// Writes to the database as log entries, and their replay.
module WalManager {
  import opened Bytes
  import opened Crc32c
  import opened Coding
  import opened WalSeal
  import opened WalFormat
  import opened WalWriter
  import opened WalReader
  import opened WalTheorems

  /** Inserting or updating a record, or deleting one. */
  datatype WriteType = KWrite | KDelete

  datatype Write = Write(kind: WriteType, key: Bytestring, value: Bytestring)

  /** The length of a logged key fits in 32 bits. */
  predicate Loggable(w: Write) {
    |w.key| < 0x1_0000_0000
  }

  /** Write type, key length, key, value. */
  function Serialize(w: Write): (e: Bytestring)
    requires Loggable(w)
    ensures |e| > 0
  {
    [if w.kind.KWrite? then 0 else 1] + (EncodeVarint32(|w.key|) + (w.key + w.value))
  }

  /** The write an entry holds, if it is well formed. */
  function Deserialize(e: Bytestring): Option<Write> {
    if |e| == 0 || e[0] > 1 then None
    else
      var rest := e[1..];
      match DecodeVarint32(rest)
      case None => None
      case Some((length, n)) =>
        if |rest| - n < length then None
        else Some(Write(if e[0] == 0 then KWrite else KDelete, rest[n..n + length], rest[n + length..]))
  }

  /** Every logged write is recovered from its entry. */
  lemma {:induction false} SerializeRoundTrip(w: Write)
    requires Loggable(w)
    ensures Deserialize(Serialize(w)) == Some(w)
  {
    var e := Serialize(w);
    var length, body := EncodeVarint32(|w.key|), w.key + w.value;
    var rest := e[1..];
    assert rest == length + body;
    Varint32RoundTrip(|w.key|, body);
    ThreeParts(length, w.key, w.value, rest);
  }

  lemma ThreeParts(a: Bytestring, b: Bytestring, c: Bytestring, all: Bytestring)
    requires all == a + (b + c)
    ensures all[|a|..|a| + |b|] == b && all[|a| + |b|..] == c
  {
  }

  function SerializeAll(ws: seq<Write>): (es: seq<Bytestring>)
    requires forall w | w in ws :: Loggable(w)
    ensures |es| == |ws| && forall i | 0 <= i < |ws| :: es[i] == Serialize(ws[i])
  {
    seq(|ws|, i requires 0 <= i < |ws| => Serialize(ws[i]))
  }

  /** The writes passed on for a sequence of entries; malformed entries are skipped. */
  function DeserializeAll(es: seq<Bytestring>): seq<Write> {
    if es == [] then []
    else
      var rest := DeserializeAll(es[1..]);
      match Deserialize(es[0])
      case None => rest
      case Some(w) => [w] + rest
  }

  lemma {:induction false} SerializeAllRoundTrip(ws: seq<Write>)
    requires forall w | w in ws :: Loggable(w)
    ensures DeserializeAll(SerializeAll(ws)) == ws
  {
    if |ws| > 0 {
      SerializeRoundTrip(ws[0]);
      assert SerializeAll(ws)[1..] == SerializeAll(ws[1..]);
      SerializeAllRoundTrip(ws[1..]);
    }
  }

  lemma {:induction false} DeserializeAllConcat(a: seq<Bytestring>, b: seq<Bytestring>)
    ensures DeserializeAll(a + b) == DeserializeAll(a) + DeserializeAll(b)
    decreases |a|
  {
    if a == [] {
      assert a + b == b;
    } else {
      assert (a + b)[0] == a[0] && (a + b)[1..] == a[1..] + b;
      DeserializeAllConcat(a[1..], b);
    }
  }

  /** The log file of a list of writes. */
  function LogOf(seal: Seal, ws: seq<Write>): Bytestring
    requires seal.Lawful() && forall w | w in ws :: Loggable(w)
  {
    Log(FramerOf(seal), SerializeAll(ws)).bytes
  }

  /** Where the log of some writes has the end of the first `k`. */
  function LogSize(seal: Seal, ws: seq<Write>, k: nat): nat
    requires seal.Lawful() && (forall w | w in ws :: Loggable(w)) && k <= |ws|
  {
    |LogTo(FramerOf(seal), SerializeAll(ws), k).bytes|
  }

  /** The writes replayed from log files, oldest first. */
  function Replay(parse: Parser, files: seq<Bytestring>): seq<Write> {
    if files == [] then [] else DeserializeAll(Entries(parse, files[0])) + Replay(parse, files[1..])
  }

  /** Appends one write to the active log. */
  method LogWrite(writer: Writer, w: Write)
    requires writer.Valid() && writer.Sealed() && Loggable(w)
    modifies writer
    ensures writer.Valid()
    ensures var v := Encode(writer.frame, old(writer.At()), Serialize(w), true);
            writer.file == old(writer.file) + v.bytes && writer.At() == v.cursor
  {
    var record: Bytestring := [if w.kind.KWrite? then 0 else 1];
    record := record + EncodeVarint32(|w.key|);
    record := record + w.key;
    record := record + w.value;
    assert record == Serialize(w);
    writer.AddEntry(record);
  }

  /** Logging writes one after another into a new log file leaves exactly the log of these writes. */
  method LogAll(crc: Checksum, ghost seal: Seal, ws: seq<Write>) returns (file: Bytestring)
    requires crc.Lawful() && seal.Lawful() && seal.Implements(crc)
    requires forall w | w in ws :: Loggable(w)
    ensures file == LogOf(seal, ws)
  {
    var writer := new Writer(crc, seal);
    ghost var es := SerializeAll(ws);
    for i := 0 to |ws|
      invariant writer.Valid() && writer.Sealed() && fresh(writer) && writer.frame == FramerOf(seal)
      invariant Written(writer.file, writer.At()) == LogTo(FramerOf(seal), es, i)
    {
      LogNext(FramerOf(seal), es, i);
      LogWrite(writer, ws[i]);
    }
    file := writer.file;
  }

  /** One entry as the replay loop takes it apart. */
  method ParseEntry(entry: Bytestring) returns (r: Option<Write>)
    requires |entry| > 0
    ensures r == Deserialize(entry)
  {
    var rawType := entry[0];
    var rest := entry[1..];
    if rawType > 1 {
      return None;
    }
    var ok, length, body := GetVarint32(rest);
    if !ok || |body| < length {
      return None;
    }
    ghost var n := |rest| - |body|;
    assert body[..length] == rest[n..n + length] && body[length..] == rest[n + length..];
    return Some(Write(if rawType == 0 then KWrite else KDelete, body[..length], body[length..]));
  }

  /** What a callback answers, given all writes passed to it so far. */
  type Callback = seq<Write> -> bool

  ghost predicate AcceptedAt(accepts: Callback, ws: seq<Write>, j: int)
    requires 0 <= j <= |ws|
  {
    accepts(ws[..j])
  }

  /** The callback accepted all writes after the first `n`. */
  ghost predicate Accepted(accepts: Callback, n: nat, ws: seq<Write>) {
    forall j {:trigger AcceptedAt(accepts, ws, j)} | n < j <= |ws| :: AcceptedAt(accepts, ws, j)
  }

  /** The writes are passed on in order, up to the first after `n` that the callback refuses. */
  ghost predicate Delivered(all: seq<Write>, accepts: Callback, n: nat, ws: seq<Write>, ok: bool) {
    if ok then ws == all && Accepted(accepts, n, ws)
    else n < |ws| && ws <= all && !accepts(ws) && Accepted(accepts, n, ws[..|ws| - 1])
  }

  lemma AcceptedMore(accepts: Callback, n: nat, ws: seq<Write>, ws': seq<Write>)
    requires Accepted(accepts, n, ws) && ws <= ws' && Accepted(accepts, |ws|, ws')
    ensures Accepted(accepts, n, ws')
  {
    forall j | n < j <= |ws'|
      ensures AcceptedAt(accepts, ws', j)
    {
      if j <= |ws| {
        assert AcceptedAt(accepts, ws, j);
        assert ws'[..j] == ws[..j];
      }
    }
  }

  lemma DeliveredMore(was: seq<Write>, more: seq<Write>, accepts: Callback, n: nat, ws: seq<Write>, ok: bool)
    requires Accepted(accepts, n, was) && n <= |was| && Delivered(was + more, accepts, |was|, ws, ok)
    ensures Delivered(was + more, accepts, n, ws, ok)
  {
    AcceptedMore(accepts, n, was, if ok then ws else ws[..|ws| - 1]);
  }

  /** The call made for one entry, if any. */
  method ReplayEntry(entry: Bytestring, accepts: Callback, before: seq<Write>) returns (ws: seq<Write>, ok: bool)
    ensures Delivered(before + DeserializeAll([entry]), accepts, |before|, ws, ok)
  {
    ws, ok := before, true;
    assert before + [] == before;
    if |entry| > 0 {
      var w := ParseEntry(entry);
      if w.Some? {
        ws := before + [w.value];
        ok := accepts(ws);
        assert ws[..|ws|] == ws && ws[..|before|] == before;
      }
    }
  }

  /** The calls made for the entries of one log file. */
  method ReplayEntries(entries: seq<Bytestring>, accepts: Callback, before: seq<Write>) returns (ws: seq<Write>, ok: bool)
    ensures Delivered(before + DeserializeAll(entries), accepts, |before|, ws, ok)
  {
    ws := before;
    ghost var total := before + DeserializeAll(entries);
    assert entries[0..] == entries;
    for j := 0 to |entries|
      invariant total == ws + DeserializeAll(entries[j..]) && Accepted(accepts, |before|, ws) && |before| <= |ws|
    {
      ghost var was, one, rest := ws, DeserializeAll([entries[j]]), DeserializeAll(entries[j + 1..]);
      FirstEntry(entries[j..], entries[j], entries[j + 1..]);
      Regroup(was, one, rest);
      ws, ok := ReplayEntry(entries[j], accepts, ws);
      DeliveredMore(was, one, accepts, |before|, ws, ok);
      if !ok {
        return;
      }
    }
    assert ws + [] == ws;
    ok := true;
  }

  lemma Regroup(a: seq<Write>, b: seq<Write>, c: seq<Write>)
    ensures a + (b + c) == a + b + c
  {
  }

  lemma FirstEntry(entries: seq<Bytestring>, first: Bytestring, rest: seq<Bytestring>)
    requires |entries| > 0 && entries[0] == first && entries[1..] == rest
    ensures DeserializeAll(entries) == DeserializeAll([first]) + DeserializeAll(rest)
  {
  }

  /** Replays the log files from oldest to newest, until the callback refuses a write. */
  method ReplayLog(files: seq<Bytestring>, crc: Checksum, ghost seal: Seal, accepts: Callback) returns (ws: seq<Write>, ok: bool)
    requires seal.Implements(crc)
    ensures Delivered(Replay(LogParser(seal, true), files), accepts, 0, ws, ok)
  {
    ws, ok := [], true;
    ghost var parse := LogParser(seal, true);
    ghost var total := Replay(parse, files);
    assert files[0..] == files;
    for i := 0 to |files|
      invariant ok && total == ws + Replay(parse, files[i..]) && Accepted(accepts, 0, ws)
    {
      var entries := ReadLog(files[i], crc, true, seal);
      ghost var was, more, rest := ws, DeserializeAll(entries), Replay(parse, files[i + 1..]);
      Regroup(was, more, rest);
      ws, ok := ReplayEntries(entries, accepts, ws);
      DeliveredMore(was, more, accepts, 0, ws, ok);
      if !ok {
        return;
      }
    }
    assert ws + [] == ws;
  }

  /**
   * Replaying any prefix of the log of some writes passes on, in order, exactly
   * the writes whose last fragment lies in the prefix, each with its type, key
   * and value.
   */
  lemma {:induction false} ReplayPrefix(seal: Seal, ws: seq<Write>, size: nat) returns (k: nat)
    requires seal.Lawful() && forall w | w in ws :: Loggable(w)
    requires size <= |LogOf(seal, ws)|
    ensures k <= |ws|
    ensures LogSize(seal, ws, k) <= size
    ensures k < |ws| ==> size < LogSize(seal, ws, k + 1)
    ensures DeserializeAll(Entries(LogParser(seal, true), LogOf(seal, ws)[..size])) == ws[..k]
  {
    var es := SerializeAll(ws);
    LogParserAccepts(seal, true);
    k := ReadPrefix(LogParser(seal, true), FramerOf(seal), es, size);
    assert es[..k] == SerializeAll(ws[..k]);
    SerializeAllRoundTrip(ws[..k]);
  }

  lemma {:induction false} ReplayWhole(seal: Seal, ws: seq<Write>)
    requires seal.Lawful() && forall w | w in ws :: Loggable(w)
    ensures DeserializeAll(Entries(LogParser(seal, true), LogOf(seal, ws))) == ws
  {
    LogParserAccepts(seal, true);
    ReadAll(LogParser(seal, true), FramerOf(seal), SerializeAll(ws));
    SerializeAllRoundTrip(ws);
  }

  function Flatten(batches: seq<seq<Write>>): seq<Write> {
    if batches == [] then [] else batches[0] + Flatten(batches[1..])
  }

  /** Log files that hold one batch of writes each. */
  ghost predicate Logs(seal: Seal, files: seq<Bytestring>, batches: seq<seq<Write>>)
    requires seal.Lawful()
  {
    && |files| == |batches|
    && (forall i, w | 0 <= i < |batches| && w in batches[i] :: Loggable(w))
    && (forall i | 0 <= i < |batches| :: files[i] == LogOf(seal, batches[i]))
  }

  lemma {:induction false} ReplayConcat(parse: Parser, a: seq<Bytestring>, b: seq<Bytestring>)
    ensures Replay(parse, a + b) == Replay(parse, a) + Replay(parse, b)
    decreases |a|
  {
    if a == [] {
      assert a + b == b;
    } else {
      assert (a + b)[0] == a[0] && (a + b)[1..] == a[1..] + b;
      ReplayConcat(parse, a[1..], b);
    }
  }

  lemma {:induction false} ReplayLogs(seal: Seal, files: seq<Bytestring>, batches: seq<seq<Write>>)
    requires seal.Lawful() && Logs(seal, files, batches)
    ensures Replay(LogParser(seal, true), files) == Flatten(batches)
    decreases |files|
  {
    if |files| > 0 {
      assert files[0] == LogOf(seal, batches[0]);
      ReplayWhole(seal, batches[0]);
      ReplayLogs(seal, files[1..], batches[1..]);
    }
  }

  /** A crash cuts the newest log short: all older writes and a prefix of the newest ones are replayed, in order. */
  lemma {:induction false} ReplayAfterCrash(
    seal: Seal, files: seq<Bytestring>, batches: seq<seq<Write>>, newest: seq<Write>, size: nat) returns (k: nat)
    requires seal.Lawful() && Logs(seal, files, batches) && forall w | w in newest :: Loggable(w)
    requires size <= |LogOf(seal, newest)|
    ensures k <= |newest|
    ensures LogSize(seal, newest, k) <= size
    ensures k < |newest| ==> size < LogSize(seal, newest, k + 1)
    ensures Replay(LogParser(seal, true), files + [LogOf(seal, newest)[..size]]) == Flatten(batches) + newest[..k]
  {
    var parse, last := LogParser(seal, true), LogOf(seal, newest)[..size];
    ReplayLogs(seal, files, batches);
    ReplayConcat(parse, files, [last]);
    k := ReplayPrefix(seal, newest, size);
  }

  // ---------------------------------------------------------------- the checksum that logs have

  /** Replays log files that were sealed with CRC32C. */
  method ReplayCrcLog(files: seq<Bytestring>, accepts: Callback) returns (ws: seq<Write>, ok: bool)
    ensures Delivered(Replay(LogParser(CrcSeal(), true), files), accepts, 0, ws, ok)
  {
    ws, ok := ReplayLog(files, Crc32c.Crc32c(), CrcSeal(), accepts);
  }

  /** What a crash costs such logs: nothing but the writes of the newest one that are not wholly in the file. */
  lemma {:induction false} CrashedCrcLogs(seal: Seal, files: seq<Bytestring>, batches: seq<seq<Write>>, newest: seq<Write>, size: nat)
    returns (k: nat)
    requires seal == CrcSeal() && (forall w | w in newest :: Loggable(w))
    requires seal.Lawful() ==> Logs(seal, files, batches) && size <= |LogOf(seal, newest)|
    ensures seal.Lawful() && k <= |newest| && LogSize(seal, newest, k) <= size
    ensures k < |newest| ==> size < LogSize(seal, newest, k + 1)
    ensures Replay(LogParser(seal, true), files + [LogOf(seal, newest)[..size]]) == Flatten(batches) + newest[..k]
  {
    SealOfLawful(Crc32c.Crc32c());
    k := ReplayAfterCrash(seal, files, batches, newest, size);
  }
}
