// Rebuilding a page record by record, so that its heap has no gaps.
module PageCompaction {
  import opened Bytes
  import opened PageLayout

  /** The heap has no gaps. */
  ghost predicate Tight(p: Page) {
    p.top + p.used == |p.heap|
  }

  /** A page with nothing but the two fence keys. */
  ghost predicate FencesOnly(q: Page, lower: Bytestring, upper: Bytestring) {
    && Layout(q) && Tight(q) && |q.slots| == 0
    && q.lower.length == |lower| && q.upper.length == |upper|
    && q.LowerFence() == lower && q.UpperFence() == upper
  }

  /** `q` holds the fences and the first `n` records of `p`, without gaps. */
  ghost predicate Rebuilt(p: Page, q: Page, n: nat) {
    && n <= |p.slots| && |q.slots| == n
    && Layout(q) && Tight(q) && |q.heap| == |p.heap|
    && q.lower.length == p.lower.length && q.upper.length == p.upper.length
    && q.LowerFence() == p.LowerFence() && q.UpperFence() == p.UpperFence()
    && Total(q.slots) == Total(p.slots[..n])
    && SlotHeads(q.slots) == SlotHeads(p.slots)[..n]
    && q.Content() == p.Content()[..n]
  }

  /** There is room for the next record. */
  lemma RebuildRoom(p: Page, q: Page, n: nat)
    requires Counted(p) && Rebuilt(p, q, n) && n < |p.slots|
    ensures 10 + p.slots[n].Length() <= q.FreeSpace()
  {
    TotalNext(p.slots, n);
    TotalMonotone(p.slots, n + 1, |p.slots|);
    assert p.slots[..|p.slots|] == p.slots;
  }

  /** What is left to copy fits below what is copied. */
  lemma RebuildLeft(p: Page, q: Page, n: nat)
    requires Counted(p) && Rebuilt(p, q, n)
    ensures q.top - (|p.heap| - p.used) == Total(p.slots) - Total(p.slots[..n])
    ensures n < |p.slots| ==> p.slots[n].Length() <= Total(p.slots) - Total(p.slots[..n])
    ensures n == |p.slots| ==> Total(p.slots) == Total(p.slots[..n])
  {
    assert p.slots[..|p.slots|] == p.slots;
    if n < |p.slots| {
      TotalNext(p.slots, n);
      TotalMonotone(p.slots, n + 1, |p.slots|);
    }
  }

  lemma RebuildContent(p: Page, q: Page, r: Page, n: nat, s: Slot)
    requires n < |p.slots| && Rebuilt(p, q, n)
    requires Inserted(q, r, n, s, p.Content()[n].key, p.Content()[n].payload)
    ensures r.Content() == p.Content()[..n + 1]
  {
    InsertedContent(q, r, n, s, p.Content()[n].key, p.Content()[n].payload);
    assert p.Content()[..n + 1] == p.Content()[..n] + [p.Content()[n]];
  }

  lemma RebuildTotal(p: Page, q: Page, n: nat, s: Slot)
    requires n < |p.slots| && n == |q.slots| && Total(q.slots) == Total(p.slots[..n])
    requires s.Length() == p.slots[n].Length()
    ensures Total(Insert(q.slots, n, s)) == Total(p.slots[..n + 1])
  {
    TotalInsert(q.slots, n, s);
    TotalNext(p.slots, n);
  }

  /** Storing record `n` next extends the copy. */
  lemma {:induction false} RebuildStep(p: Page, q: Page, r: Page, n: nat, s: Slot)
    requires Counted(p) && n < |p.slots| && Rebuilt(p, q, n)
    requires s.Length() == p.slots[n].Length() && s.head == p.slots[n].head
    requires Inserted(q, r, n, s, p.Content()[n].key, p.Content()[n].payload)
    ensures Rebuilt(p, r, n + 1)
  {
    RebuildRoom(p, q, n);
    RebuildContent(p, q, r, n, s);
    RebuildTotal(p, q, n, s);
    InsertedLayout(q, r, n, s, p.Content()[n].key, p.Content()[n].payload);
    InsertedFences(q, r, s, p.Content()[n].key, p.Content()[n].payload);
  }

  /** A finished copy has the same records and reaches exactly the predicted free space. */
  lemma RebuildDone(p: Page, q: Page)
    requires Layout(p) && Rebuilt(p, q, |p.slots|)
    ensures Layout(q) && q.Content() == p.Content() && SlotHeads(q.slots) == SlotHeads(p.slots)
    ensures q.FreeSpace() == p.FreeSpaceAfterCompaction() == q.FreeSpaceAfterCompaction()
  {
    assert p.slots[..|p.slots|] == p.slots;
  }

  // ------------------------------------------------------------ through a buffer

  /** The page whose heap ends with `buf`, filled down to `off`. */
  function Buffered(lower: Extent, upper: Extent, done: seq<Slot>, front: Bytestring, buf: Bytestring, off: nat): Page
    requires off <= |buf|
  {
    Page(lower, upper, |buf| - off, |front| + off, done, front + buf)
  }

  /** Copying the next record into the buffer extends the copy. */
  lemma {:induction false} BufferStep(p: Page, lower: Extent, upper: Extent, done: seq<Slot>, done': seq<Slot>, front: Bytestring,
                   buf: Bytestring, buf': Bytestring, off: nat, off': nat, s: Slot, bytes: Bytestring)
    requires Counted(p) && |done| < |p.slots| && off <= |buf|
    requires Rebuilt(p, Buffered(lower, upper, done, front, buf, off), |done|)
    requires s == p.slots[|done|].(offset := |front| + off') && off == off' + s.Length() && done' == done + [s]
    requires s.keyLength == |p.Content()[|done|].key| && s.payloadLength == |p.Content()[|done|].payload|
    requires bytes == p.Content()[|done|].key + p.Content()[|done|].payload && Overwritten(buf, buf', off', bytes)
    ensures Rebuilt(p, Buffered(lower, upper, done', front, buf', off'), |done'|)
  {
    OverwrittenSuffix(front, buf, buf', off', bytes);
    assert done' == Insert(done, |done|, s);
    RebuildStep(p, Buffered(lower, upper, done, front, buf, off),
                Buffered(lower, upper, done', front, buf', off'), |done|, s);
  }

  /** A buffer of just the needed size has room for what is left to copy, and is full at the end. */
  lemma BufferLeft(p: Page, lower: Extent, upper: Extent, done: seq<Slot>, front: Bytestring, buf: Bytestring, off: nat)
    requires Counted(p) && |done| <= |p.slots| && off <= |buf| == p.used
    requires Rebuilt(p, Buffered(lower, upper, done, front, buf, off), |done|)
    ensures |done| < |p.slots| ==> p.slots[|done|].Length() <= off
    ensures |done| == |p.slots| ==> off == 0
  {
    RebuildLeft(p, Buffered(lower, upper, done, front, buf, off), |done|);
  }

  lemma BufferFences(q: Page, front: Bytestring, b0: Bytestring, b1: Bytestring, b2: Bytestring, off: nat,
                     lower: Bytestring, upper: Bytestring, le: Extent, ue: Extent)
    requires SizeOk(|front| + |b0|) && SlotStart(|front| + |b0|) + |lower| + |upper| <= |front| + |b0|
    requires off + |lower| + |upper| == |b0|
    requires Overwritten(b0, b1, off + |upper|, lower) && Overwritten(b1, b2, off, upper)
    requires le.length == |lower| && (|lower| == 0 || le.offset == |front| + off + |upper|)
    requires ue.length == |upper| && (|upper| == 0 || ue.offset == |front| + off)
    requires q == Buffered(le, ue, [], front, b2, off)
    ensures FencesOnly(q, lower, upper)
  {
    OverwrittenSuffix(front, b0, b1, off + |upper|, lower);
    OverwrittenSuffix(front, b1, b2, off, upper);
  }

  // ------------------------------------------------------------ all but one slot

  /** The slots but for the one at place `k`, if the sequence reaches it. */
  function Others(slots: seq<Slot>, k: nat): seq<Slot> {
    if k < |slots| then Remove(slots, k) else slots
  }

  lemma OthersNext(slots: seq<Slot>, k: nat, x: Slot)
    ensures Others(slots + [x], k) == if |slots| == k then slots else Others(slots, k) + [x]
  {
  }
}
