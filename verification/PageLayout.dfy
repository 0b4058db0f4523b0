// The layout of a slotted page: fence keys and records as extents of one heap.
module PageLayout {
  import opened Bytes

  /** A stretch of heap bytes. */
  datatype Extent = Extent(offset: nat, length: nat) {
    function End(): nat {
      offset + length
    }
  }

  /** A slot of the directory: where a record's truncated key and payload are, and the key's head. */
  datatype Slot = Slot(offset: nat, keyLength: nat, payloadLength: nat, head: nat) {
    function Length(): nat {
      keyLength + payloadLength
    }

    function Covers(): Extent {
      Extent(offset, Length())
    }
  }

  /** A truncated key and its payload. */
  datatype Record = Record(key: Bytestring, payload: Bytestring)

  // ------------------------------------------------------------ extents

  /** The extents share no byte. */
  ghost predicate Apart(a: Extent, b: Extent) {
    a.length == 0 || b.length == 0 || a.End() <= b.offset || b.End() <= a.offset
  }

  /** An extent lies between two offsets. */
  ghost predicate Between(e: Extent, lo: nat, hi: nat) {
    lo <= e.offset && e.End() <= hi
  }

  // ------------------------------------------------------------ directories

  /** No two records share a byte. */
  ghost predicate Disjoint(slots: seq<Slot>) {
    forall i, j | 0 <= i < j < |slots| :: Apart(slots[i].Covers(), slots[j].Covers())
  }

  /** No record shares a byte with `e`. */
  ghost predicate AllApart(slots: seq<Slot>, e: Extent) {
    forall i | 0 <= i < |slots| :: Apart(slots[i].Covers(), e)
  }

  ghost predicate AllBetween(slots: seq<Slot>, lo: nat, hi: nat) {
    forall i | 0 <= i < |slots| :: Between(slots[i].Covers(), lo, hi)
  }

  /** The bytes of all records. */
  function Total(slots: seq<Slot>): nat {
    if |slots| == 0 then 0 else Total(slots[..|slots| - 1]) + slots[|slots| - 1].Length()
  }

  function SlotHeads(slots: seq<Slot>): (heads: seq<nat>)
    ensures |heads| == |slots|
  {
    seq(|slots|, i requires 0 <= i < |slots| => slots[i].head)
  }

  function Insert<T>(s: seq<T>, i: nat, x: T): (r: seq<T>)
    requires i <= |s|
    ensures |r| == |s| + 1
  {
    s[..i] + [x] + s[i..]
  }

  function Remove<T>(s: seq<T>, i: nat): (r: seq<T>)
    requires i < |s|
    ensures |r| == |s| - 1
  {
    s[..i] + s[i + 1..]
  }

  lemma {:induction false} TotalConcat(a: seq<Slot>, b: seq<Slot>)
    ensures Total(a + b) == Total(a) + Total(b)
    decreases |b|
  {
    if |b| == 0 {
      assert a + b == a;
    } else {
      assert (a + b)[..|a + b| - 1] == a + b[..|b| - 1];
      TotalConcat(a, b[..|b| - 1]);
    }
  }

  lemma {:induction false} TotalInsert(slots: seq<Slot>, i: nat, x: Slot)
    requires i <= |slots|
    ensures Total(Insert(slots, i, x)) == Total(slots) + x.Length()
  {
    assert slots == slots[..i] + slots[i..];
    TotalSplit(Insert(slots, i, x), slots[..i], x, slots[i..]);
  }

  lemma TotalSplit(slots: seq<Slot>, a: seq<Slot>, x: Slot, b: seq<Slot>)
    requires slots == a + [x] + b
    ensures Total(slots) == Total(a + b) + x.Length()
  {
    TotalConcat(a + [x], b);
    TotalConcat(a, [x]);
    TotalConcat(a, b);
  }

  lemma RemoveParts<T>(s: seq<T>, i: nat)
    requires i < |s|
    ensures s == s[..i] + [s[i]] + s[i + 1..] && Remove(s, i) == s[..i] + s[i + 1..]
  {
  }

  lemma TotalRemove(slots: seq<Slot>, i: nat)
    requires i < |slots|
    ensures Total(slots) == Total(Remove(slots, i)) + slots[i].Length()
  {
    RemoveParts(slots, i);
    TotalSplit(slots, slots[..i], slots[i], slots[i + 1..]);
  }

  lemma TotalUpdate(slots: seq<Slot>, i: nat, x: Slot)
    requires i < |slots|
    ensures Total(slots[i := x]) == Total(slots) - slots[i].Length() + x.Length()
  {
    TotalRemove(slots, i);
    TotalRemove(slots[i := x], i);
    assert Remove(slots[i := x], i) == Remove(slots, i);
  }

  lemma DisjointInsert(slots: seq<Slot>, i: nat, x: Slot)
    requires i <= |slots| && Disjoint(slots) && AllApart(slots, x.Covers())
    ensures Disjoint(Insert(slots, i, x))
  {
    var r := Insert(slots, i, x);
    forall a, b | 0 <= a < b < |r|
      ensures Apart(r[a].Covers(), r[b].Covers())
    {
      var a', b' := if a < i then a else a - 1, if b < i then b else b - 1;
      assert a == i || r[a] == slots[a'];
      assert b == i || r[b] == slots[b'];
    }
  }

  lemma DisjointUpdate(slots: seq<Slot>, i: nat, x: Slot)
    requires i < |slots| && Disjoint(slots) && AllApart(Remove(slots, i), x.Covers())
    ensures Disjoint(slots[i := x])
  {
    var r := slots[i := x];
    forall a, b | 0 <= a < b < |r|
      ensures Apart(r[a].Covers(), r[b].Covers())
    {
      if a == i {
        assert Remove(slots, i)[b - 1] == r[b];
      } else if b == i {
        assert Remove(slots, i)[a] == r[a];
      }
    }
  }

  lemma TotalNext(slots: seq<Slot>, i: nat)
    requires i < |slots|
    ensures Total(slots[..i + 1]) == Total(slots[..i]) + slots[i].Length()
  {
    assert slots[..i + 1][..i] == slots[..i];
  }

  lemma TotalMonotone(slots: seq<Slot>, i: nat, j: nat)
    requires i <= j <= |slots|
    ensures Total(slots[..i]) <= Total(slots[..j])
  {
    assert slots[..j] == slots[..i] + slots[i..j];
    TotalConcat(slots[..i], slots[i..j]);
  }

  // ------------------------------------------------------------ bytes

  /** The bytes at an offset. */
  function Read(heap: Bytestring, offset: nat, length: nat): (r: Bytestring)
    ensures offset + length <= |heap| ==> |r| == length
  {
    if offset + length <= |heap| then heap[offset..offset + length] else []
  }

  function ReadExtent(heap: Bytestring, e: Extent): Bytestring {
    if e.length == 0 then [] else Read(heap, e.offset, e.length)
  }

  function ReadRecord(heap: Bytestring, s: Slot): Record {
    Record(Read(heap, s.offset, s.keyLength), Read(heap, s.offset + s.keyLength, s.payloadLength))
  }

  /** The records in directory order. */
  function Records(heap: Bytestring, slots: seq<Slot>): (rs: seq<Record>)
    ensures |rs| == |slots|
  {
    seq(|slots|, i requires 0 <= i < |slots| => ReadRecord(heap, slots[i]))
  }

  /** `h'` is `h` with `bytes` written at `at`. */
  ghost predicate Overwritten(h: Bytestring, h': Bytestring, at: nat, bytes: Bytestring) {
    && at + |bytes| <= |h| == |h'|
    && h'[at..at + |bytes|] == bytes
    && (forall i | 0 <= i < |h| && (i < at || at + |bytes| <= i) :: h'[i] == h[i])
  }

  /** Overwriting the end part of a heap. */
  lemma OverwrittenSuffix(front: Bytestring, b0: Bytestring, b1: Bytestring, at: nat, bytes: Bytestring)
    requires Overwritten(b0, b1, at, bytes)
    ensures Overwritten(front + b0, front + b1, |front| + at, bytes)
  {
    assert (front + b1)[|front| + at..|front| + at + |bytes|] == b1[at..at + |bytes|];
  }

  lemma ReadParts(h: Bytestring, s: Slot)
    requires s.Covers().End() <= |h|
    ensures ReadRecord(h, s) ==
            Record(ReadExtent(h, s.Covers())[..s.keyLength], ReadExtent(h, s.Covers())[s.keyLength..])
  {
    var e := ReadExtent(h, s.Covers());
    assert Read(h, s.offset, s.keyLength) == e[..s.keyLength];
    assert Read(h, s.offset + s.keyLength, s.payloadLength) == e[s.keyLength..];
  }

  lemma KeepRecords(h: Bytestring, h': Bytestring, at: nat, bytes: Bytestring, slots: seq<Slot>)
    requires Overwritten(h, h', at, bytes) && AllBetween(slots, 0, |h|) && AllApart(slots, Extent(at, |bytes|))
    ensures Records(h', slots) == Records(h, slots)
  {
    forall i | 0 <= i < |slots|
      ensures Records(h', slots)[i] == Records(h, slots)[i]
    {
      assert Between(slots[i].Covers(), 0, |h|) && Apart(slots[i].Covers(), Extent(at, |bytes|));
    }
  }

  lemma NewRecord(h: Bytestring, h': Bytestring, at: nat, key: Bytestring, payload: Bytestring, head: nat)
    requires Overwritten(h, h', at, key + payload)
    ensures ReadRecord(h', Slot(at, |key|, |payload|, head)) == Record(key, payload)
  {
    var s := Slot(at, |key|, |payload|, head);
    ReadParts(h', s);
    var w := h'[at..at + |key + payload|];
    assert ReadExtent(h', s.Covers()) == w == key + payload;
  }

  lemma RecordsRemove(h: Bytestring, slots: seq<Slot>, i: nat)
    requires i < |slots|
    ensures Records(h, Remove(slots, i)) == Remove(Records(h, slots), i)
  {
  }

  // ------------------------------------------------------------ pages

  const HEADER_BYTES := 108

  const SLOT_BYTES := 10

  /** A page holds its header and at least one slot, and 16-bit offsets reach all of it. */
  ghost predicate SizeOk(size: nat) {
    HEADER_BYTES + 2 * SLOT_BYTES <= size < 0x1_00_00
  }

  /** Padding before the directory makes the rest of the page a whole number of slots. */
  function SlotStart(size: nat): nat
    requires size >= 108
  {
    108 + (size - 108) % 10
  }

  /** Where a directory of `count` slots ends. */
  function SlotEnd(size: nat, count: nat): nat
    requires size >= 108
  {
    SlotStart(size) + 10 * count
  }

  /** A page: its two fence keys, its accounting, its directory and its bytes. */
  datatype Page = Page(lower: Extent, upper: Extent, used: nat, top: nat, slots: seq<Slot>, heap: Bytestring) {
    /** The bytes between the directory and the heap. */
    function FreeSpace(): int
      requires |heap| >= 108
    {
      top - SlotEnd(|heap|, |slots|)
    }

    /** The bytes not used by the directory, a fence or a record. */
    function FreeSpaceAfterCompaction(): int
      requires |heap| >= 108
    {
      |heap| - SlotEnd(|heap|, |slots|) - used
    }

    function Content(): seq<Record> {
      Records(heap, slots)
    }

    function LowerFence(): Bytestring {
      ReadExtent(heap, lower)
    }

    function UpperFence(): Bytestring {
      ReadExtent(heap, upper)
    }
  }

  ghost predicate FenceOk(e: Extent, top: nat, size: nat) {
    e.length == 0 || Between(e, top, size)
  }

  /** The directory accounts for the heap: nothing overlaps and nothing is miscounted. */
  ghost predicate Counted(p: Page) {
    && SizeOk(|p.heap|)
    && SlotEnd(|p.heap|, |p.slots|) <= p.top <= |p.heap|
    && p.used == p.lower.length + p.upper.length + Total(p.slots)
    && p.used <= |p.heap| - p.top
  }

  ghost predicate FencesOk(p: Page) {
    && FenceOk(p.lower, p.top, |p.heap|) && FenceOk(p.upper, p.top, |p.heap|) && Apart(p.lower, p.upper)
  }

  ghost predicate SlotsOk(slots: seq<Slot>, lower: Extent, upper: Extent, top: nat, size: nat) {
    && AllBetween(slots, top, size)
    && Disjoint(slots)
    && AllApart(slots, lower)
    && AllApart(slots, upper)
  }

  ghost predicate Layout(p: Page) {
    Counted(p) && FencesOk(p) && SlotsOk(p.slots, p.lower, p.upper, p.top, |p.heap|)
  }

  // ------------------------------------------------------------ storing a record

  /** `s` is a slot for a record stored just below the heap. */
  ghost predicate Below(p: Page, s: Slot) {
    s.offset + s.Length() == p.top
  }

  /** `q` holds `key` and `payload` just below the heap of `p`, in slot `s`; the fences are the same. */
  ghost predicate Stores(p: Page, q: Page, s: Slot, key: Bytestring, payload: Bytestring) {
    && Below(p, s) && s.keyLength == |key| && s.payloadLength == |payload|
    && q.lower == p.lower && q.upper == p.upper && q.top == s.offset
    && Overwritten(p.heap, q.heap, s.offset, key + payload)
  }

  lemma BelowApart(slots: seq<Slot>, s: Slot, top: nat, size: nat)
    requires AllBetween(slots, top, size) && s.offset + s.Length() <= top
    ensures AllApart(slots, s.Covers())
  {
    forall i | 0 <= i < |slots|
      ensures Apart(slots[i].Covers(), s.Covers())
    {
      assert Between(slots[i].Covers(), top, size);
    }
  }

  lemma SlotsInsert(slots: seq<Slot>, lower: Extent, upper: Extent, top: nat, size: nat, i: nat, s: Slot)
    requires i <= |slots| && SlotsOk(slots, lower, upper, top, size)
    requires s.offset + s.Length() == top <= size && FenceOk(lower, top, size) && FenceOk(upper, top, size)
    ensures SlotsOk(Insert(slots, i, s), lower, upper, s.offset, size)
  {
    BelowApart(slots, s, top, size);
    DisjointInsert(slots, i, s);
  }

  /** Storing a record in a new slot. */
  ghost predicate Inserted(p: Page, q: Page, i: nat, s: Slot, key: Bytestring, payload: Bytestring) {
    && i <= |p.slots|
    && Stores(p, q, s, key, payload)
    && q.slots == Insert(p.slots, i, s) && q.used == p.used + s.Length()
  }

  lemma InsertedCounted(p: Page, q: Page, i: nat, s: Slot, key: Bytestring, payload: Bytestring)
    requires Counted(p) && Inserted(p, q, i, s, key, payload)
    requires 10 + s.Length() <= p.FreeSpace()
    ensures Counted(q)
  {
    TotalInsert(p.slots, i, s);
  }

  lemma InsertedFences(p: Page, q: Page, s: Slot, key: Bytestring, payload: Bytestring)
    requires FencesOk(p) && Stores(p, q, s, key, payload)
    ensures FencesOk(q) && q.LowerFence() == p.LowerFence() && q.UpperFence() == p.UpperFence()
  {
  }

  lemma StoredRecords(p: Page, q: Page, s: Slot, key: Bytestring, payload: Bytestring, slots: seq<Slot>)
    requires Stores(p, q, s, key, payload) && p.top <= |p.heap| && AllBetween(slots, p.top, |p.heap|)
    ensures Records(q.heap, slots) == Records(p.heap, slots)
    ensures ReadRecord(q.heap, s) == Record(key, payload)
  {
    BelowApart(slots, s, p.top, |p.heap|);
    assert s.Covers() == Extent(s.offset, |key + payload|);
    KeepRecords(p.heap, q.heap, s.offset, key + payload, slots);
    NewRecord(p.heap, q.heap, s.offset, key, payload, s.head);
  }

  lemma InsertedContent(p: Page, q: Page, i: nat, s: Slot, key: Bytestring, payload: Bytestring)
    requires Inserted(p, q, i, s, key, payload) && p.top <= |p.heap| && AllBetween(p.slots, p.top, |p.heap|)
    ensures q.Content() == Insert(p.Content(), i, Record(key, payload))
  {
    StoredRecords(p, q, s, key, payload, p.slots);
  }

  lemma InsertedLayout(p: Page, q: Page, i: nat, s: Slot, key: Bytestring, payload: Bytestring)
    requires Layout(p) && Inserted(p, q, i, s, key, payload)
    requires 10 + s.Length() <= p.FreeSpace()
    ensures Layout(q)
  {
    InsertedCounted(p, q, i, s, key, payload);
    InsertedFences(p, q, s, key, payload);
    SlotsInsert(p.slots, p.lower, p.upper, p.top, |p.heap|, i, s);
  }

  // ------------------------------------------------------------ dropping a slot

  /** Dropping a slot leaves its bytes behind. */
  ghost predicate Dropped(p: Page, q: Page, i: nat) {
    && i < |p.slots|
    && q == p.(slots := Remove(p.slots, i), used := q.used) && q.used == p.used - p.slots[i].Length()
  }

  lemma DroppedLayout(p: Page, q: Page, i: nat)
    requires Layout(p) && Dropped(p, q, i)
    ensures Layout(q) && q.Content() == Remove(p.Content(), i)
    ensures q.LowerFence() == p.LowerFence() && q.UpperFence() == p.UpperFence()
  {
    TotalRemove(p.slots, i);
    RecordsRemove(p.heap, p.slots, i);
  }

  // ------------------------------------------------------------ a shorter payload in place

  /** The payload in slot `i` overwritten by one that is not longer. */
  ghost predicate Shrunk(p: Page, q: Page, i: nat, payload: Bytestring) {
    && i < |p.slots| && |payload| <= p.slots[i].payloadLength
    && Overwritten(p.heap, q.heap, p.slots[i].offset + p.slots[i].keyLength, payload)
    && q.lower == p.lower && q.upper == p.upper && q.top == p.top
    && q.slots == p.slots[i := p.slots[i].(payloadLength := |payload|)]
    && q.used == p.used - (p.slots[i].payloadLength - |payload|)
  }

  /** `b` is a part of `a`. */
  ghost predicate Part(a: Extent, b: Extent) {
    a.offset <= b.offset && b.End() <= a.End()
  }

  lemma {:induction false} ApartPart(a: Extent, b: Extent, e: Extent)
    requires Part(a, b) && Apart(a, e)
    ensures Apart(b, e)
  {
  }

  lemma OthersApart(slots: seq<Slot>, i: nat, e: Extent)
    requires i < |slots| && Disjoint(slots) && Part(slots[i].Covers(), e)
    ensures AllApart(Remove(slots, i), e)
  {
    var r := Remove(slots, i);
    forall j | 0 <= j < |r|
      ensures Apart(r[j].Covers(), e)
    {
      var k := if j < i then j else j + 1;
      assert r[j] == slots[k];
      assert Apart(slots[i].Covers(), slots[k].Covers());
      ApartPart(slots[i].Covers(), e, slots[k].Covers());
    }
  }

  lemma {:induction false} SlotsShrink(slots: seq<Slot>, lower: Extent, upper: Extent, top: nat, size: nat, i: nat, s: Slot)
    requires i < |slots| && SlotsOk(slots, lower, upper, top, size) && Part(slots[i].Covers(), s.Covers())
    ensures SlotsOk(slots[i := s], lower, upper, top, size)
  {
    OthersApart(slots, i, s.Covers());
    DisjointUpdate(slots, i, s);
    AllBetweenShrink(slots, top, size, i, s);
    AllApartShrink(slots, lower, i, s);
    AllApartShrink(slots, upper, i, s);
  }

  lemma AllBetweenShrink(slots: seq<Slot>, top: nat, size: nat, i: nat, s: Slot)
    requires i < |slots| && AllBetween(slots, top, size) && Part(slots[i].Covers(), s.Covers())
    ensures AllBetween(slots[i := s], top, size)
  {
    assert Between(slots[i].Covers(), top, size);
  }

  lemma {:induction false} AllApartShrink(slots: seq<Slot>, e: Extent, i: nat, s: Slot)
    requires i < |slots| && AllApart(slots, e) && Part(slots[i].Covers(), s.Covers())
    ensures AllApart(slots[i := s], e)
  {
    ApartPart(slots[i].Covers(), s.Covers(), e);
  }

  lemma ShrunkCounted(p: Page, q: Page, i: nat, payload: Bytestring)
    requires Counted(p) && Shrunk(p, q, i, payload)
    ensures Counted(q)
  {
    TotalUpdate(p.slots, i, q.slots[i]);
  }

  lemma FenceElsewhere(h: Bytestring, h': Bytestring, at: nat, bytes: Bytestring, s: Slot, e: Extent)
    requires Overwritten(h, h', at, bytes) && Part(s.Covers(), Extent(at, |bytes|)) && Apart(s.Covers(), e)
    requires e.length == 0 || e.End() <= |h|
    ensures ReadExtent(h', e) == ReadExtent(h, e)
  {
    if e.length > 0 {
      ApartPart(s.Covers(), Extent(at, |bytes|), e);
    }
  }

  lemma ShrunkLayout(p: Page, q: Page, i: nat, payload: Bytestring)
    requires Layout(p) && Shrunk(p, q, i, payload)
    ensures Layout(q)
  {
    ShrunkCounted(p, q, i, payload);
    SlotsShrink(p.slots, p.lower, p.upper, p.top, |p.heap|, i, q.slots[i]);
  }

  lemma ShrunkFences(p: Page, q: Page, i: nat, payload: Bytestring)
    requires Layout(p) && Shrunk(p, q, i, payload)
    ensures q.LowerFence() == p.LowerFence() && q.UpperFence() == p.UpperFence()
  {
    var s := p.slots[i];
    assert Apart(s.Covers(), p.lower) && Apart(s.Covers(), p.upper);
    FenceElsewhere(p.heap, q.heap, s.offset + s.keyLength, payload, s, p.lower);
    FenceElsewhere(p.heap, q.heap, s.offset + s.keyLength, payload, s, p.upper);
  }

  lemma ShrunkRecord(h: Bytestring, h': Bytestring, s: Slot, payload: Bytestring)
    requires Overwritten(h, h', s.offset + s.keyLength, payload) && s.Covers().End() <= |h|
    requires |payload| <= s.payloadLength
    ensures ReadRecord(h', s.(payloadLength := |payload|)) == Record(ReadRecord(h, s).key, payload)
  {
    assert Read(h', s.offset, s.keyLength) == Read(h, s.offset, s.keyLength);
  }

  lemma OthersKept(h: Bytestring, h': Bytestring, at: nat, bytes: Bytestring, slots: seq<Slot>, i: nat)
    requires Overwritten(h, h', at, bytes) && i < |slots| && AllBetween(slots, 0, |h|) && Disjoint(slots)
    requires Part(slots[i].Covers(), Extent(at, |bytes|))
    ensures Records(h', Remove(slots, i)) == Records(h, Remove(slots, i))
  {
    OthersApart(slots, i, Extent(at, |bytes|));
    KeepRecords(h, h', at, bytes, Remove(slots, i));
  }

  /** Two sequences that agree but for place `i`. */
  lemma AgreeElsewhere<T>(a: seq<T>, b: seq<T>, i: nat)
    requires |a| == |b| && i < |a| && Remove(a, i) == Remove(b, i)
    ensures b == a[i := b[i]]
  {
    forall j | 0 <= j < |a| && j != i
      ensures b[j] == a[j]
    {
      if j < i {
        assert Remove(a, i)[j] == a[j] && Remove(b, i)[j] == b[j];
      } else {
        assert Remove(a, i)[j - 1] == a[j] && Remove(b, i)[j - 1] == b[j];
      }
    }
  }

  lemma ShrunkContent(p: Page, q: Page, i: nat, payload: Bytestring)
    requires i < |p.slots| && Shrunk(p, q, i, payload) && AllBetween(p.slots, 0, |p.heap|) && Disjoint(p.slots)
    ensures q.Content() == p.Content()[i := Record(p.Content()[i].key, payload)]
  {
    var s := p.slots[i];
    assert Between(s.Covers(), 0, |p.heap|);
    ShrunkRecord(p.heap, q.heap, s, payload);
    OthersKept(p.heap, q.heap, s.offset + s.keyLength, payload, p.slots, i);
    UpdatedContent(p.heap, p.slots, q.heap, q.slots, i);
  }

  /** If only slot `i` changed and the other records read the same, only record `i` changed. */
  lemma UpdatedContent(h: Bytestring, slots: seq<Slot>, h': Bytestring, slots': seq<Slot>, i: nat)
    requires i < |slots| == |slots'| && Remove(slots', i) == Remove(slots, i)
    requires Records(h', Remove(slots, i)) == Records(h, Remove(slots, i))
    ensures Records(h', slots') == Records(h, slots)[i := ReadRecord(h', slots'[i])]
  {
    RecordsRemove(h', slots', i);
    RecordsRemove(h, slots, i);
    AgreeElsewhere(Records(h, slots), Records(h', slots'), i);
  }
}
