// The packed map: a slotted page changed in place.
module PackedMap {
  import opened Bytes
  import opened PageLayout
  import opened PageCompaction
  import opened PageSearch
  import opened PackedPage
  import Coding

  // ------------------------------------------------------------ moving bytes and slots

  /** Copies bytes into a heap. */
  method CopyInto(heap: array<Byte>, at: nat, bytes: Bytestring)
    requires at + |bytes| <= heap.Length
    modifies heap
    ensures Overwritten(old(heap[..]), heap[..], at, bytes)
  {
    forall i | 0 <= i < |bytes| {
      heap[at + i] := bytes[i];
    }
    assert heap[..][at..at + |bytes|] == bytes;
  }

  /** Moves the slots from `i` on up by one. */
  method OpenSlot(slots: array<Slot>, i: nat, count: nat)
    requires i <= count < slots.Length
    modifies slots
    ensures slots[..i] == old(slots[..i]) && slots[i + 1..count + 1] == old(slots[i..count])
  {
    forall j | i <= j < count {
      slots[j + 1] := slots[j];
    }
  }

  /** Moves the slots after `i` down by one. */
  method CloseSlot(slots: array<Slot>, i: nat, count: nat)
    requires i < count <= slots.Length
    modifies slots
    ensures slots[..count - 1] == Remove(old(slots[..count]), i)
  {
    forall j | i <= j < count - 1 {
      slots[j] := slots[j + 1];
    }
  }

  lemma ShiftedSlots(all: seq<Slot>, shifted: seq<Slot>, i: nat, count: nat)
    requires i <= count < |all| == |shifted| && shifted[..i] == all[..i] && shifted[i + 1..count + 1] == all[i..count]
    ensures forall j | 0 <= j < i :: shifted[j] == all[j]
    ensures forall j | i < j <= count :: shifted[j] == all[j - 1]
  {
    forall j | 0 <= j < i
      ensures shifted[j] == all[j]
    {
      assert shifted[..i][j] == all[..i][j];
    }
    forall j | i < j <= count
      ensures shifted[j] == all[j - 1]
    {
      assert shifted[i + 1..count + 1][j - i - 1] == all[i..count][j - i - 1];
    }
  }

  /** The length of the longest common prefix. */
  method SharedPrefix(a: Bytestring, b: Bytestring) returns (n: nat)
    ensures CommonPrefix(a, b, n)
  {
    n := 0;
    while n < MinLength(a, b) && a[n] == b[n]
      invariant n <= MinLength(a, b)
      invariant a[..n] == b[..n]
      decreases |a| - n
    {
      n := n + 1;
    }
  }

  /** Compares the common part, then the lengths. */
  method CompareKeys(a: Bytestring, b: Bytestring) returns (sign: int)
    ensures sign < 0 <==> Less(a, b)
    ensures sign > 0 <==> Less(b, a)
    ensures sign == 0 <==> a == b
  {
    MemCmpOrder(a, b);
    OneOrder(a, b);
    sign := MemCmpMin(a, b);
    if sign == 0 {
      if |a| < |b| {
        sign := -1;
      } else if |a| > |b| {
        sign := 1;
      }
    }
  }

  /** The slots that fit in a page. */
  function Capacity(size: nat): nat
    requires size >= 108
  {
    (size - SlotStart(size)) / 10
  }

  lemma CapacityBound(size: nat, count: nat)
    requires SizeOk(size)
    ensures SlotEnd(size, count) <= size <==> count <= Capacity(size)
    ensures Capacity(size) >= 1
  {
  }

  /** A page of 4096 bytes: where its directory starts and how many slots it has room for. */
  lemma PageInNumbers(size: nat)
    requires size == 4096
    ensures SlotStart(size) == 116 && Capacity(size) == 398 && SlotEnd(size, Capacity(size)) == size
  {
  }

  class PackedMap {
    const heap: array<Byte>
    const slots: array<Slot>
    const hint: array<nat>
    var lower: Extent
    var upper: Extent
    var count: nat
    var used: nat
    var top: nat
    var prefix: nat
    var overflow: bool

    ghost predicate Shaped()
      reads this
    {
      && SizeOk(heap.Length) && slots.Length == Capacity(heap.Length) && hint.Length == 16
      && count <= slots.Length
      && (heap as object) != (hint as object)
    }

    /** The page made of the first `n` slots. */
    ghost function ViewOf(n: nat): Page
      requires n <= slots.Length
      reads this, heap, slots
    {
      Page(lower, upper, used, top, slots[..n], heap[..])
    }

    ghost function View(): Page
      requires count <= slots.Length
      reads this, heap, slots
    {
      ViewOf(count)
    }

    ghost predicate Formed()
      reads this, heap, slots
    {
      Shaped() && Sound(View(), prefix)
    }

    ghost predicate HintsFresh()
      requires Shaped()
      reads this, slots, hint
    {
      Fresh(hint[..], SlotHeads(slots[..count]))
    }

    /** Lookups find every stored key. */
    ghost predicate Serving()
      requires Shaped()
      reads this, slots, hint
    {
      Serves(hint[..], SlotHeads(slots[..count]))
    }

    ghost predicate Sorted()
      requires Shaped()
      reads this, heap, slots
    {
      Ordered(View())
    }

    ghost function Stem(): Bytestring
      requires Shaped()
      reads this, heap, slots
    {
      Prefix(View(), prefix)
    }

    /** The fence keys. */
    ghost function Bounds(): (Bytestring, Bytestring)
      requires Shaped()
      reads this, heap, slots
    {
      (View().LowerFence(), View().UpperFence())
    }

    ghost function Records(): seq<Record>
      requires Shaped()
      reads this, heap, slots
    {
      View().Content()
    }

    /** The map that the page stands for. */
    ghost function Contents(): map<Bytestring, Bytestring>
      requires Shaped()
      reads this, heap, slots
    {
      Entries(Stem(), Records())
    }

    function FreeSpace(): int
      requires heap.Length >= 108
      reads this
    {
      top - SlotEnd(heap.Length, count)
    }

    function FreeSpaceAfterCompaction(): int
      requires heap.Length >= 108
      reads this
    {
      heap.Length - SlotEnd(heap.Length, count) - used
    }

    // ---------------------------------------------------------- fences

    /** A map of `size` bytes without fence keys. */
    constructor (size: nat)
      requires SizeOk(size)
      ensures Formed() && fresh(heap) && fresh(slots) && fresh(hint)
      ensures heap.Length == size && count == 0 && used == 0 && top == size && !overflow
      ensures Contents() == map[] && HintsFresh()
      ensures lower.length == 0 && upper.length == 0
    {
      heap := new Byte[size](_ => 0);
      slots := new Slot[Capacity(size)](_ => Slot(0, 0, 0, 0));
      hint := new nat[16](_ => 0);
      lower, upper := Extent(0, 0), Extent(0, 0);
      count, used, top, prefix, overflow := 0, 0, size, 0, false;
      new;
      CapacityBound(size, 0);
    }

    /** Writes a fence key just below the heap. */
    method InsertFence(key: Bytestring) returns (fence: Extent)
      requires |key| <= top <= heap.Length
      modifies this`top, this`used, heap
      ensures fence == Extent(top, |key|) && top == old(top) - |key| && used == old(used) + |key|
      ensures Overwritten(old(heap[..]), heap[..], top, key)
    {
      top := top - |key|;
      used := used + |key|;
      fence := Extent(top, |key|);
      CopyInto(heap, top, key);
    }

    /** Stores the fence keys of an empty map and finds their common prefix. */
    method SetFences(lowerKey: Bytestring, upperKey: Bytestring)
      requires Shaped() && count == 0 && used == 0 && top == heap.Length
      requires SlotStart(heap.Length) + |lowerKey| + |upperKey| <= heap.Length
      modifies this, heap
      ensures Formed() && count == 0 && overflow == old(overflow)
      ensures FencesOnly(View(), lowerKey, upperKey) && CommonPrefix(lowerKey, upperKey, prefix)
    {
      ghost var h0 := heap[..];
      lower := InsertFence(lowerKey);
      ghost var h1 := heap[..];
      upper := InsertFence(upperKey);
      prefix := SharedPrefix(lowerKey, upperKey);
      assert View() == Page(lower, upper, |lowerKey| + |upperKey|, top, [], heap[..]);
      FencesOnlySound(View(), prefix, lowerKey, upperKey);
    }

    /** A map of `size` bytes for the keys from `lowerKey` to `upperKey`. */
    constructor WithFences(size: nat, lowerKey: Bytestring, upperKey: Bytestring)
      requires SizeOk(size) && SlotStart(size) + |lowerKey| + |upperKey| <= size
      requires MemCmpMin(lowerKey, upperKey) <= 0
      ensures Formed() && fresh(heap) && fresh(slots) && fresh(hint)
      ensures Contents() == map[] && Sorted() && HintsFresh()
      ensures CommonPrefix(lowerKey, upperKey, prefix) && Stem() == lowerKey[..prefix] && Bounds() == (lowerKey, upperKey)
      ensures Abstract() == Sheet(map[], size - SlotStart(size) - |lowerKey| - |upperKey|, prefix)
    {
      heap := new Byte[size](_ => 0);
      slots := new Slot[Capacity(size)](_ => Slot(0, 0, 0, 0));
      hint := new nat[16](_ => 0);
      lower, upper := Extent(0, 0), Extent(0, 0);
      count, used, top, prefix, overflow := 0, 0, size, 0, false;
      new;
      CapacityBound(size, 0);
      SetFences(lowerKey, upperKey);
    }

    // ---------------------------------------------------------- hints

    /** Samples the directory again from hint `begin` on. */
    method Resample(dist: nat, begin: nat)
      requires hint.Length == 16 && Sample(dist, 15) < slots.Length
      modifies hint
      ensures Resampled(old(hint[..]), hint[..], SlotHeads(slots[..]), dist, begin)
    {
      var i := begin;
      while i < 16
        invariant begin <= i
        invariant forall j | 0 <= j < 16 && j < begin :: hint[j] == old(hint[j])
        invariant forall j | begin <= j < i && j < 16 :: Sample(dist, j) < slots.Length && hint[j] == slots[Sample(dist, j)].head
      {
        SampleOrder(dist, i, 15);
        hint[i] := slots[Sample(dist, i)].head;
        i := i + 1;
      }
    }

    method MakeHint()
      requires Shaped()
      modifies hint
      ensures HintsFresh()
    {
      SampleBound(if count == 0 then 1 else count, 15);
      CapacityBound(heap.Length, 0);
      Resample(Distance(count), 0);
      ResampledAll(old(hint[..]), hint[..], slots[..], count);
    }

    method UpdateHint(slot: nat)
      requires Shaped() && slots.Length > 0
      modifies hint
      ensures Resampled(old(hint[..]), hint[..], SlotHeads(slots[..]), Distance(count), UpdateBegin(count, slot))
    {
      SampleBound(if count == 0 then 1 else count, 15);
      var dist := Distance(count);
      var begin := 0;
      if count > 33 && Distance(count - 1) == dist && slot / dist > 1 {
        begin := slot / dist - 1;
      }
      Resample(dist, begin);
    }

    method SearchHint(head: nat) returns (lo: nat, hi: nat)
      requires Shaped()
      ensures Range(lo, hi) == HintRange(hint[..], head, count)
    {
      lo, hi := 0, count;
      if count > 32 {
        var dist := Distance(count);
        var pos := 0;
        while pos < 16 && hint[pos] < head
          invariant pos <= 16 && FirstAtLeast(hint[..], head, 0) == FirstAtLeast(hint[..], head, pos)
        {
          pos := pos + 1;
        }
        var pos2 := pos;
        while pos2 < 16 && hint[pos2] == head
          invariant pos <= pos2 <= 16 && FirstOther(hint[..], head, pos) == FirstOther(hint[..], head, pos2)
        {
          pos2 := pos2 + 1;
        }
        lo := pos * dist;
        StartIsProduct(dist, pos);
        if pos2 < 16 {
          hi := (pos2 + 1) * dist;
          StartIsProduct(dist, pos2 + 1);
        }
      }
    }

    // ---------------------------------------------------------- searching

    function GetKey(slot: nat): Bytestring
      requires slot < slots.Length && slots[slot].offset + slots[slot].keyLength <= heap.Length
      reads this, slots, heap
    {
      heap[slots[slot].offset..slots[slot].offset + slots[slot].keyLength]
    }

    function GetPayload(slot: nat): Bytestring
      requires slot < slots.Length && slots[slot].offset + slots[slot].Length() <= heap.Length
      reads this, slots, heap
    {
      heap[slots[slot].offset + slots[slot].keyLength..slots[slot].offset + slots[slot].Length()]
    }

    lemma {:induction false} GetRecord(slot: nat)
      requires Formed() && slot < count
      ensures slots[slot].offset + slots[slot].Length() <= heap.Length
      ensures Records()[slot] == Record(GetKey(slot), GetPayload(slot))
      ensures slots[slot].head == ExtractHead(GetKey(slot))
    {
      SlotKey(View(), prefix, slot);
    }

    /** How `key` compares with the key in `slot`: heads first, then bytes, then lengths. */
    method Compare(key: Bytestring, slot: nat) returns (sign: int)
      requires Formed() && slot < count
      ensures sign < 0 <==> Less(key, Records()[slot].key)
      ensures sign > 0 <==> Less(Records()[slot].key, key)
      ensures sign == 0 <==> key == Records()[slot].key
    {
      GetRecord(slot);
      var other := GetKey(slot);
      CompareHeads(key, other);
      OneOrder(key, other);
      var head := ExtractHead(key);
      if head < slots[slot].head {
        sign := -1;
      } else if head > slots[slot].head {
        sign := 1;
      } else {
        sign := CompareKeys(key, other);
      }
    }

    /** Binary search of a stretch of the directory for a truncated key. */
    method BinarySearch(key: Bytestring, lo: nat, hi: nat) returns (slot: nat, found: bool)
      requires Formed() && lo <= hi <= count
      ensures lo <= slot <= hi && (found ==> slot < count && Records()[slot].key == key)
      ensures Sorted() ==> Searched(KeysOf(Records()), key, Range(lo, hi), slot, found)
    {
      var a, b := lo, hi;
      while a < b
        invariant lo <= a <= b <= hi
        invariant Sorted() ==> AllBelow(KeysOf(Records()), lo, a, key) && AllAbove(KeysOf(Records()), b, hi, key)
        decreases b - a
      {
        var mid := (b - a) / 2 + a;
        var sign := Compare(key, mid);
        if sign == 0 {
          return mid, true;
        }
        if Sorted() {
          Narrow(KeysOf(Records()), lo, mid, hi, key);
        }
        if sign < 0 {
          b := mid;
        } else {
          a := mid + 1;
        }
      }
      return a, false;
    }

    /** The common prefix, which is the start of the lower fence. */
    method GetPrefix() returns (stem: Bytestring)
      requires Formed()
      ensures stem == Stem() && |stem| == prefix
    {
      StemShape(View(), prefix);
      if prefix == 0 {
        return [];
      }
      stem := heap[lower.offset..lower.offset + prefix];
    }

    /** Searches for a key that starts with the common prefix, given without it. */
    method SearchRest(key: Bytestring) returns (slot: nat, found: bool)
      requires Formed()
      ensures slot <= count && (found ==> slot < count && Records()[slot].key == key)
      ensures Sorted() ==> Searched(KeysOf(Records()), key, HintRange(hint[..], ExtractHead(key), count), slot, found)
    {
      var lo, hi := SearchHint(ExtractHead(key));
      slot, found := BinarySearch(key, lo, hi);
    }

    /** The slot that a scan over the whole keys stops at, and whether it holds the key. */
    method LowerBound(key: Bytestring) returns (slot: nat, found: bool)
      requires Formed()
      ensures slot <= count && (found ==> slot < count && key == Stem() + Records()[slot].key)
      ensures Sorted() && HintsFresh() ==> slot == Scan(FullKeys(Stem(), Records()), key)
      ensures Sorted() && HintsFresh() ==> (found <==> key in FullKeys(Stem(), Records()))
      ensures Sorted() ==> (found <==> Visible(Stem(), Records(), hint[..], key))
      ensures Sorted() && StartsWith(key, Stem()) ==>
                var rest := key[|Stem()|..];
                Searched(KeysOf(Records()), rest, HintRange(hint[..], ExtractHead(rest), count), slot, found)
    {
      var stem := GetPrefix();
      var cmp := MemCmpMin(key, stem);
      EqualPrefix(key, stem);
      if cmp < 0 || (cmp == 0 && |key| < |stem|) {
        ScanBelowPrefix(stem, Records(), key);
        return 0, false;
      }
      if cmp > 0 {
        ScanAbovePrefix(stem, Records(), key);
        return count, false;
      }
      var rest := key[|stem|..];
      assert key == stem + rest;
      slot, found := SearchRest(rest);
      if Sorted() && HintsFresh() {
        SearchedFresh(View(), prefix, hint[..], rest, slot, found);
      }
      if Sorted() {
        SearchedVisible(stem, Records(), hint[..], rest, slot, found);
      }
    }

    /** Looks a key up. */
    method Get(key: Bytestring) returns (payload: Coding.Option<Bytestring>)
      requires Formed()
      ensures Sorted() && payload.Some? ==> key in Contents() && Contents()[key] == payload.value
      ensures Sorted() ==> (payload.Some? <==> Visible(Stem(), Records(), hint[..], key))
      ensures Sorted() && Serving() ==> (payload.Some? <==> key in Contents())
    {
      var slot, found := LowerBound(key);
      if Sorted() {
        EntriesKeys(Stem(), Records(), key);
        AllVisibleIff(Stem(), Records(), hint[..]);
      }
      if !found {
        return Coding.None;
      }
      GetRecord(slot);
      if Sorted() {
        OrderedOnlyAt(Records(), slot);
        EntriesAt(Stem(), Records(), slot);
      }
      return Coding.Some(GetPayload(slot));
    }

    // ---------------------------------------------------------- storing and removing

    /** Writes a slot, and its record just below the heap. */
    method StoreKeyValue(slot: nat, key: Bytestring, payload: Bytestring)
      requires slot < slots.Length && prefix <= |key| && |key| - prefix + |payload| <= top <= heap.Length
      modifies this`top, this`used, slots, heap
      ensures top == old(top) - (|key| - prefix + |payload|) && used == old(used) + (|key| - prefix + |payload|)
      ensures slots[..] == old(slots[..])[slot := Slot(top, |key| - prefix, |payload|, ExtractHead(key[prefix..]))]
      ensures Overwritten(old(heap[..]), heap[..], top, key[prefix..] + payload)
    {
      var rest := key[prefix..];
      var space := |rest| + |payload|;
      top := top - space;
      used := used + space;
      slots[slot] := Slot(top, |rest|, |payload|, ExtractHead(rest));
      ghost var h0 := heap[..];
      CopyInto(heap, top, rest);
      ghost var h1 := heap[..];
      CopyInto(heap, top + |rest|, payload);
    }

    /** The page without one of its slots. */
    ghost function Without(slot: nat): Page
      requires slot < count <= slots.Length
      reads this, heap, slots
    {
      Page(lower, upper, used, top, PageLayout.Remove(slots[..count], slot), heap[..])
    }

    method RemoveSlot(slot: nat)
      requires Formed() && slot < count
      modifies this`used, this`count, slots, hint
      ensures Formed() && HintsFresh() && Stem() == old(Stem()) && Bounds() == old(Bounds())
      ensures Records() == PageLayout.Remove(old(Records()), slot)
      ensures FreeSpaceAfterCompaction() == old(FreeSpaceAfterCompaction() + Weight(Records()[slot]))
    {
      ghost var p := View();
      GetRecord(slot);
      UsedCovers(p, prefix, slot);
      used := used - slots[slot].keyLength;
      used := used - slots[slot].payloadLength;
      CloseSlot(slots, slot, count);
      count := count - 1;
      DroppedSound(p, View(), prefix, slot);
      MakeHint();
    }

    /** Removes the record of a stored key. */
    method RemoveAt(slot: nat, key: Bytestring)
      requires Formed() && slot < count && key == Stem() + Records()[slot].key
      modifies this`used, this`count, slots, hint
      ensures Formed() && HintsFresh() && Stem() == old(Stem()) && Bounds() == old(Bounds())
      ensures old(Sorted()) ==> Sorted() && key in old(Contents()) && Contents() == old(Contents()) - {key}
      ensures old(Sorted()) ==> Abstract() == old(Abstract()).Drop(key)
    {
      ghost var rs, stem, room := Records(), Stem(), FreeSpaceAfterCompaction();
      RemoveSlot(slot);
      if Ascending(KeysOf(rs)) {
        RemovedEntries(stem, rs, slot);
        DropOutcome(stem, rs, slot, prefix, room);
      }
    }

    method Remove(key: Bytestring) returns (removed: bool)
      requires Formed()
      modifies this`used, this`count, slots, hint
      ensures Formed() && Stem() == old(Stem()) && Bounds() == old(Bounds()) && (old(HintsFresh()) ==> HintsFresh())
      ensures old(Sorted()) ==> Sorted()
      ensures old(Sorted()) && removed ==> key in old(Contents()) && Contents() == old(Contents()) - {key}
      ensures !removed ==> View() == old(View())
      ensures old(Sorted() && HintsFresh()) ==> (removed <==> key in old(Contents()))
      ensures old(Sorted() && HintsFresh()) ==> Abstract() == old(Abstract()).Drop(key)
    {
      StemShape(View(), prefix);
      var slot, found := LowerBound(key);
      if Sorted() {
        EntriesKeys(Stem(), Records(), key);
      }
      if !found {
        return false;
      }
      RemoveAt(slot, key);
      return true;
    }

    // ---------------------------------------------------------- compaction

    /** Copies every record into an empty map with the same fences. */
    method CopyKeyValueRange(dst: PackedMap)
      requires Formed() && dst.Shaped() && dst.count == 0 && Rebuilt(View(), dst.View(), 0)
      requires this != dst && heap != dst.heap && slots != dst.slots
      modifies dst`top, dst`used, dst`count, dst.heap, dst.slots
      ensures dst.Shaped() && dst.count == count
      ensures Rebuilt(View(), dst.View(), count)
    {
      ghost var p := View();
      assert dst.slots[..0] == [];
      for i := 0 to count
        invariant dst.Shaped() && dst.count == 0
        invariant Rebuilt(p, dst.ViewOf(i), i)
      {
        CopyRecord(dst, i, p);
      }
      dst.count := dst.count + count;
    }

    method CopyRecord(dst: PackedMap, i: nat, ghost p: Page)
      requires Formed() && p == View() && i < count
      requires this != dst && heap != dst.heap && slots != dst.slots && i < dst.slots.Length
      requires dst.Shaped() && Rebuilt(p, dst.ViewOf(i), i)
      modifies dst`top, dst`used, dst.heap, dst.slots
      ensures Rebuilt(p, dst.ViewOf(i + 1), i + 1)
    {
      ghost var q := dst.ViewOf(i);
      GetRecord(i);
      RebuildRoom(p, q, i);
      var key, payload := GetKey(i), GetPayload(i);
      dst.PutRecord(i, slots[i], key, payload);
      RebuildStep(p, q, dst.ViewOf(i + 1), i, dst.slots[i]);
    }

    /** Places a copied record just below the heap. */
    method PutRecord(slot: nat, from: Slot, key: Bytestring, payload: Bytestring)
      requires Shaped() && slot < slots.Length && |key| + |payload| <= top <= heap.Length
      requires from.keyLength == |key| && from.payloadLength == |payload| && from.head == ExtractHead(key)
      modifies this`top, this`used, slots, heap
      ensures Inserted(old(ViewOf(slot)), ViewOf(slot + 1), slot, slots[slot], key, payload)
      ensures slots[slot].Length() == from.Length() && slots[slot].head == from.head
    {
      ghost var q := ViewOf(slot);
      var space := |key| + |payload|;
      top := top - space;
      used := used + space;
      CopyInto(heap, top, key + payload);
      slots[slot] := Slot(top, |key|, |payload|, ExtractHead(key));
      assert slots[..slot + 1] == PageLayout.Insert(q.slots, slot, slots[slot]);
    }

    method GetFence(fence: Extent) returns (key: Bytestring)
      requires fence.length == 0 || fence.End() <= heap.Length
      ensures key == ReadExtent(heap[..], fence) && |key| == fence.length
    {
      if fence.length == 0 {
        return [];
      }
      key := heap[fence.offset..fence.offset + fence.length];
    }

    /** Takes over the bytes of another map. */
    method CopyFrom(src: PackedMap)
      requires src != this && src.heap != heap && src.slots != slots && src.hint != hint
      requires Shaped() && src.Shaped() && src.heap.Length == heap.Length
      modifies this, heap, slots, hint
      ensures Shaped() && count == src.count && View() == src.View()
      ensures prefix == src.prefix && overflow == src.overflow
    {
      lower, upper, count := src.lower, src.upper, src.count;
      used, top, prefix, overflow := src.used, src.top, src.prefix, src.overflow;
      forall i | 0 <= i < heap.Length {
        heap[i] := src.heap[i];
      }
      forall i | 0 <= i < slots.Length {
        slots[i] := src.slots[i];
      }
      forall i | 0 <= i < hint.Length {
        hint[i] := src.hint[i];
      }
      assert heap[..] == src.heap[..] && slots[..count] == src.slots[..count];
    }

    /** A new map with the same fences and no records. */
    method Blank() returns (tmp: PackedMap)
      requires Formed()
      ensures fresh(tmp) && fresh(tmp.heap) && fresh(tmp.slots) && fresh(tmp.hint)
      ensures tmp.Shaped() && tmp.heap.Length == heap.Length && tmp.count == 0 && !tmp.overflow
      ensures Rebuilt(View(), tmp.View(), 0) && tmp.prefix == prefix
    {
      tmp := new PackedMap(heap.Length);
      var lowerKey := GetFence(lower);
      var upperKey := GetFence(upper);
      tmp.SetFences(lowerKey, upperKey);
      PrefixUnique(lowerKey, upperKey, prefix, tmp.prefix);
    }

    /** A copy of this map whose heap has no gaps. */
    method Rebuild() returns (tmp: PackedMap)
      requires Formed()
      ensures fresh(tmp) && fresh(tmp.heap) && fresh(tmp.slots) && fresh(tmp.hint)
      ensures tmp.Formed() && tmp.heap.Length == heap.Length && !tmp.overflow && tmp.prefix == prefix
      ensures tmp.count == count && Compacted(View(), tmp.View(), prefix)
    {
      tmp := Blank();
      CopyKeyValueRange(tmp);
      RebuiltSound(View(), tmp.View(), prefix);
    }

    /** Rebuilds the heap without gaps. The overflow flag is lost. */
    method Compactify()
      requires Formed()
      modifies this, heap, slots, hint
      ensures Formed() && HintsFresh() && !overflow
      ensures count == old(count) && prefix == old(prefix)
      ensures Stem() == old(Stem()) && Bounds() == old(Bounds()) && Records() == old(Records())
      ensures SlotHeads(slots[..count]) == old(SlotHeads(slots[..count]))
      ensures FreeSpace() == old(FreeSpaceAfterCompaction()) == FreeSpaceAfterCompaction()
    {
      ghost var p := View();
      var tmp := Rebuild();
      ghost var q := tmp.View();
      CopyFrom(tmp);
      MakeHint();
      assert View() == q && Compacted(p, q, prefix);
    }

    /** Makes room, compacting if that is what it takes. */
    method RequestSpaceFor(needed: nat) returns (ok: bool)
      requires Formed()
      modifies this, heap, slots, hint
      ensures Formed() && count == old(count) && prefix == old(prefix)
      ensures ok <==> needed <= old(FreeSpaceAfterCompaction())
      ensures FreeSpaceAfterCompaction() == old(FreeSpaceAfterCompaction())
      ensures ok ==> needed <= FreeSpace()
      ensures !ok ==> View() == old(View())
      ensures overflow <==> old(overflow) && (ok ==> needed <= old(FreeSpace()))
      ensures Stem() == old(Stem()) && Bounds() == old(Bounds()) && Records() == old(Records())
      ensures SlotHeads(slots[..count]) == old(SlotHeads(slots[..count]))
      ensures HintsFresh() || hint[..] == old(hint[..])
    {
      if needed <= FreeSpace() {
        return true;
      }
      if needed <= FreeSpaceAfterCompaction() {
        Compactify();
        return true;
      }
      return false;
    }

    // ---------------------------------------------------------- making room for one record

    /** Copies a fence key into the buffer, unless it is empty. */
    method MoveFence(buf: array<Byte>, off: nat, fence: Extent, ghost fenceKey: Bytestring) returns (next: nat, moved: Extent)
      requires (fence.length == 0 || fence.End() <= heap.Length) && fenceKey == ReadExtent(heap[..], fence)
      requires fence.length <= off <= buf.Length <= heap.Length && buf != heap
      modifies buf
      ensures next == off - fence.length && moved.length == fence.length
      ensures fence.length > 0 ==> moved.offset == heap.Length - buf.Length + next
      ensures Overwritten(old(buf[..]), buf[..], next, fenceKey) && |fenceKey| == fence.length
    {
      next, moved := off, fence;
      var key := GetFence(fence);
      if fence.length > 0 {
        next := off - fence.length;
        CopyInto(buf, next, key);
        moved := Extent(heap.Length - buf.Length + next, fence.length);
      } else {
        assert buf[..][next..next + |key|] == key;
      }
    }

    /** Copies both fence keys into the buffer. */
    method MoveFences(buf: array<Byte>, ghost front: Bytestring, ghost lowerKey: Bytestring, ghost upperKey: Bytestring)
      returns (off: nat, ghost q: Page)
      requires SizeOk(heap.Length) && SlotStart(heap.Length) + lower.length + upper.length <= heap.Length
      requires lower.length + upper.length <= buf.Length && |front| + buf.Length == heap.Length && buf != heap
      requires lower.length == 0 || lower.End() <= heap.Length
      requires upper.length == 0 || upper.End() <= heap.Length
      requires lowerKey == ReadExtent(heap[..], lower) && upperKey == ReadExtent(heap[..], upper)
      modifies this`lower, this`upper, buf
      ensures off == buf.Length - lower.length - upper.length
      ensures lower.length == old(lower).length && upper.length == old(upper).length
      ensures q == Buffered(lower, upper, [], front, buf[..], off) && FencesOnly(q, lowerKey, upperKey)
    {
      ghost var b0 := buf[..];
      var next, newLower := MoveFence(buf, buf.Length, lower, lowerKey);
      ghost var b1 := buf[..];
      var newUpper;
      off, newUpper := MoveFence(buf, next, upper, upperKey);
      ghost var b2 := buf[..];
      lower, upper := newLower, newUpper;
      q := Buffered(newLower, newUpper, [], front, b2, off);
      BufferFences(q, front, b0, b1, b2, off, lowerKey, upperKey, newLower, newUpper);
    }

    /** How far the records have been moved: the slots before `id` and the buffer agree. */
    ghost predicate Moved(agree: Agreement, buf: array<Byte>, off: nat, id: nat, was: seq<Slot>)
      reads slots, buf
    {
      && id <= |was| <= slots.Length && buf.Length <= heap.Length
      && slots[id..|was|] == was[id..]
      && agree(slots[..id], buf[..], off)
    }

    /** Copies one record into the buffer and moves its slot along. */
    method CopyOut(buf: array<Byte>, off: nat, id: nat) returns (next: nat)
      requires id < slots.Length && slots[id].offset + slots[id].Length() <= heap.Length
      requires slots[id].Length() <= off <= buf.Length <= heap.Length && buf != heap
      modifies buf, slots
      ensures next == off - old(slots[id]).Length()
      ensures Overwritten(old(buf[..]), buf[..], next,
                          heap[old(slots[id]).offset..old(slots[id]).offset + old(slots[id]).Length()])
      ensures slots[..] == old(slots[..])[id := old(slots[id]).(offset := heap.Length - buf.Length + next)]
    {
      var length := slots[id].Length();
      next := off - length;
      CopyInto(buf, next, heap[slots[id].offset..slots[id].offset + length]);
      slots[id] := slots[id].(offset := heap.Length - buf.Length + next);
    }

    /** One step of moving the records. */
    method MoveRecord(buf: array<Byte>, off: nat, slot: nat, id: nat, ghost agree: Agreement, ghost was: seq<Slot>)
      returns (next: nat)
      requires Moved(agree, buf, off, id, was) && id < |was| && id != slot && buf != heap
      requires Roomy(agree, was, slot, heap[..]) && Extends(agree, was, slot, heap[..])
      modifies buf, slots
      ensures Moved(agree, buf, next, id + 1, was)
    {
      ghost var all, b0 := slots[..], buf[..];
      assert slots[id] == slots[id..|was|][0] == was[id];
      next := CopyOut(buf, off, id);
      UpdatedParts(all, slots[..], id, |was|, slots[id]);
      assert Advances(heap[..], was[id], all[..id], b0, off, slots[..id + 1], buf[..], next);
    }

    /** Leaves the slot out, with an offset that is not in the page. */
    method SkipSlot(buf: array<Byte>, off: nat, slot: nat, ghost agree: Agreement, ghost was: seq<Slot>)
      requires slot < |was| && Moved(agree, buf, off, slot, was) && Skips(agree, slot)
      modifies slots
      ensures Moved(agree, buf, off, slot + 1, was)
    {
      ghost var all := slots[..];
      assert slots[slot] == slots[slot..|was|][0] == was[slot];
      slots[slot] := slots[slot].(offset := 65535);
      UpdatedParts(all, slots[..], slot, |was|, slots[slot]);
    }

    /** Moves every record but the one in `slot`, whose offset is made invalid. */
    method MoveRecords(buf: array<Byte>, start: nat, slot: nat, ghost agree: Agreement) returns (off: nat)
      requires slot < count <= slots.Length && buf.Length <= heap.Length && buf != heap
      requires agree([], buf[..], start) && Skips(agree, slot)
      requires Roomy(agree, slots[..count], slot, heap[..]) && Extends(agree, slots[..count], slot, heap[..])
      modifies buf, slots
      ensures agree(slots[..count], buf[..], off)
    {
      ghost var was := slots[..count];
      off := start;
      assert slots[..0] == [];
      for id := 0 to count
        invariant Moved(agree, buf, off, id, was)
      {
        if id == slot {
          SkipSlot(buf, off, slot, agree, was);
        } else {
          off := MoveRecord(buf, off, slot, id, agree, was);
        }
      }
    }

    /** Moves the records into a buffer that already has the fences. */
    method MoveSurvivors(buf: array<Byte>, start: nat, slot: nat, ghost p: Page, ghost front: Bytestring) returns (ghost q: Page)
      requires slot < count <= slots.Length && Moving(p, slots[..count], slot, heap[..]) && buf != heap
      requires |front| + p.used == |p.heap| && buf.Length == p.used <= heap.Length
      requires AgreementOf(p, slot, lower, upper, front)([], buf[..], start)
      modifies buf, slots
      ensures q == Buffered(lower, upper, Others(slots[..count], slot), front, buf[..], 0) && Rebuilt(p, q, |p.slots|)
    {
      ghost var l, u := lower, upper;
      AgreementRoomy(p, slots[..count], slot, l, u, front);
      AgreementExtends(p, slots[..count], slot, l, u, front);
      AgreementSkips(p, slot, l, u, front);
      var off := MoveRecords(buf, start, slot, AgreementOf(p, slot, l, u, front));
      q := FullBuffer(p, slot, l, u, slots[..count], front, buf[..], off);
    }

    /** Copies all that survives into a buffer of just the right size. */
    method FillBuffer(slot: nat, ghost p: Page, newSpace: nat) returns (buf: array<Byte>, ghost q: Page)
      requires slot < count <= slots.Length && Moving(p, slots[..count], slot, heap[..])
      requires p.lower == lower && p.upper == upper && p.used == newSpace <= heap.Length
      modifies this`lower, this`upper, slots
      ensures fresh(buf) && buf.Length == newSpace
      ensures Rebuilt(p, q, |p.slots|)
      ensures q == Page(lower, upper, newSpace, heap.Length - newSpace, PageLayout.Remove(slots[..count], slot),
                        heap[..heap.Length - newSpace] + buf[..])
    {
      buf := new Byte[newSpace](_ => 0);
      ghost var front := heap[..heap.Length - newSpace];
      var off;
      off, q := MoveFences(buf, front, p.LowerFence(), p.UpperFence());
      q := MoveSurvivors(buf, off, slot, p, front);
    }

    /** Copies the buffer back. */
    method WriteBack(buf: array<Byte>)
      requires buf.Length <= heap.Length && buf != heap
      modifies this`top, this`used, heap
      ensures top == heap.Length - buf.Length && used == buf.Length
      ensures heap[..] == old(heap[..heap.Length - buf.Length] + buf[..])
    {
      top := heap.Length - buf.Length;
      used := buf.Length;
      ghost var h := heap[..];
      CopyInto(heap, top, buf[..]);
      assert heap[..] == h[..top] + heap[..][top..top + buf.Length];
    }

    /** Takes one record out of the heap and closes all gaps; its slot stays. */
    method RemoveFromHeapAndCompact(slot: nat, ghost p: Page) returns (ghost q: Page)
      requires slot < count <= slots.Length && slots[slot].Length() <= used <= heap.Length
      requires Moving(p, slots[..count], slot, heap[..]) && Sound(p, prefix)
      requires p.lower == lower && p.upper == upper && p.used == used - slots[slot].Length()
      modifies this`lower, this`upper, this`top, this`used, heap, slots
      ensures q == Without(slot) && Compacted(p, q, prefix)
    {
      var newSpace := used - slots[slot].Length();
      var buf;
      buf, q := FillBuffer(slot, p, newSpace);
      RebuiltSound(p, q, prefix);
      WriteBack(buf);
      assert heap[..] == q.heap;
    }

    // ---------------------------------------------------------- a new payload for a stored key

    /** Overwrites a payload by one that is not longer. */
    method ShrinkPayload(slot: nat, payload: Bytestring)
      requires Formed() && slot < count && |payload| <= slots[slot].payloadLength
      modifies this`used, slots, heap
      ensures Formed() && Stem() == old(Stem()) && Bounds() == old(Bounds())
      ensures Records() == old(Records())[slot := Record(old(Records())[slot].key, payload)]
      ensures SlotHeads(slots[..count]) == old(SlotHeads(slots[..count]))
      ensures FreeSpaceAfterCompaction() == old(FreeSpaceAfterCompaction() + |Records()[slot].payload|) - |payload|
    {
      ghost var p := View();
      UsedCovers(p, prefix, slot);
      GetRecord(slot);
      CopyInto(heap, slots[slot].offset + slots[slot].keyLength, payload);
      used := used - (slots[slot].payloadLength - |payload|);
      slots[slot] := slots[slot].(payloadLength := |payload|);
      assert slots[..count] == p.slots[slot := slots[slot]];
      ShrunkSound(p, View(), prefix, slot, payload);
    }

    /** Stores a record in a slot whose old record is not in the heap any more. */
    method StoreInto(slot: nat, key: Bytestring, payload: Bytestring, ghost p: Page, ghost d: Page)
      requires Shaped() && slot < count && d == Without(slot) && Sound(d, prefix)
      requires |p.slots| == count && d.Content() == PageLayout.Remove(p.Content(), slot)
      requires SlotHeads(p.slots) == Heads(KeysOf(p.Content()))
      requires prefix <= |key| && key[prefix..] == p.Content()[slot].key
      requires 10 + |key| - prefix + |payload| <= d.FreeSpace()
      modifies this`top, this`used, slots, heap
      ensures Formed() && Stem() == Prefix(d, prefix) && SameFences(d, View())
      ensures Records() == p.Content()[slot := Record(p.Content()[slot].key, payload)]
      ensures SlotHeads(slots[..count]) == SlotHeads(p.slots)
      ensures FreeSpaceAfterCompaction() == d.FreeSpaceAfterCompaction() - (10 + |key| - prefix + |payload|)
    {
      ghost var all := slots[..];
      StoreKeyValue(slot, key, payload);
      ghost var q, s := View(), slots[slot];
      ReplacedSound(p, d, q, prefix, slot, s, key[prefix..], payload);
    }

    /** Stores a record again, with a longer payload, leaving the old bytes behind. */
    method StoreAgain(slot: nat, key: Bytestring, payload: Bytestring)
      requires Formed() && slot < count && key == Stem() + Records()[slot].key
      requires |key| - prefix + |payload| <= FreeSpace() && prefix <= |key|
      modifies this`top, this`used, slots, heap
      ensures Formed() && Stem() == old(Stem()) && Bounds() == old(Bounds())
      ensures Records() == old(Records())[slot := Record(old(Records())[slot].key, payload)]
      ensures SlotHeads(slots[..count]) == old(SlotHeads(slots[..count]))
      ensures FreeSpaceAfterCompaction() == old(FreeSpaceAfterCompaction() + |Records()[slot].payload|) - |payload|
    {
      ghost var p := View();
      StemShape(p, prefix);
      RestIs(Prefix(p, prefix), p.Content()[slot].key, key, prefix);
      ghost var d := Forget(slot);
      StoreInto(slot, key, payload, p, d);
    }

    /** Takes the bytes of a record out of the accounting. */
    method Forget(slot: nat) returns (ghost d: Page)
      requires Formed() && slot < count
      modifies this`used
      ensures d == Without(slot) && Sound(d, prefix) && Prefix(d, prefix) == old(Stem()) && SameFences(old(View()), d)
      ensures d.Content() == PageLayout.Remove(old(Records()), slot) && d.FreeSpace() == old(FreeSpace()) + 10
      ensures d.FreeSpaceAfterCompaction() == old(FreeSpaceAfterCompaction() + Weight(Records()[slot]))
    {
      ghost var p := View();
      GetRecord(slot);
      UsedCovers(p, prefix, slot);
      used := used - slots[slot].keyLength;
      used := used - slots[slot].payloadLength;
      d := Without(slot);
      DroppedSound(p, d, prefix, slot);
    }

    /** Stores a record again, with a longer payload, after closing the gaps in the heap. */
    method CompactAndStore(slot: nat, key: Bytestring, payload: Bytestring)
      requires Formed() && slot < count && key == Stem() + Records()[slot].key && prefix <= |key|
      requires |payload| - |Records()[slot].payload| <= FreeSpaceAfterCompaction()
      modifies this`lower, this`upper, this`top, this`used, slots, heap
      ensures Formed() && Stem() == old(Stem()) && Bounds() == old(Bounds())
      ensures Records() == old(Records())[slot := Record(old(Records())[slot].key, payload)]
      ensures SlotHeads(slots[..count]) == old(SlotHeads(slots[..count]))
      ensures FreeSpaceAfterCompaction() == old(FreeSpaceAfterCompaction() + |Records()[slot].payload|) - |payload|
    {
      ghost var p := View();
      StemShape(p, prefix);
      RestIs(Prefix(p, prefix), p.Content()[slot].key, key, prefix);
      ghost var q := ForgetAndCompact(slot);
      StoreInto(slot, key, payload, p, q);
    }

    /** Takes a record out of the heap and closes the gaps. */
    method ForgetAndCompact(slot: nat) returns (ghost q: Page)
      requires Formed() && slot < count
      modifies this`lower, this`upper, this`top, this`used, slots, heap
      ensures Shaped() && q == Without(slot) && Sound(q, prefix) && Prefix(q, prefix) == old(Stem()) && SameFences(old(View()), q)
      ensures q.Content() == PageLayout.Remove(old(Records()), slot)
      ensures q.FreeSpace() == q.FreeSpaceAfterCompaction() == old(FreeSpaceAfterCompaction() + Weight(Records()[slot]))
    {
      ghost var d := Dropping(View(), prefix, slot);
      q := RemoveFromHeapAndCompact(slot, d);
    }

    /** Gives a stored key a new payload; fails only if the longer payload could not fit even without gaps. */
    method HandleDuplicateInsertion(slot: nat, key: Bytestring, payload: Bytestring) returns (ok: bool)
      requires Formed() && slot < count && key == Stem() + Records()[slot].key
      modifies this`lower, this`upper, this`top, this`used, slots, heap
      ensures Formed() && Stem() == old(Stem()) && Bounds() == old(Bounds())
      ensures ok <==> |payload| - |old(Records())[slot].payload| <= old(FreeSpaceAfterCompaction())
      ensures ok ==> Records() == old(Records())[slot := Record(old(Records())[slot].key, payload)]
      ensures ok ==> FreeSpaceAfterCompaction() == old(FreeSpaceAfterCompaction() + |Records()[slot].payload|) - |payload|
      ensures !ok ==> View() == old(View())
      ensures SlotHeads(slots[..count]) == old(SlotHeads(slots[..count])) && (old(HintsFresh()) ==> HintsFresh())
    {
      GetRecord(slot);
      StemShape(View(), prefix);
      if |payload| <= slots[slot].payloadLength {
        ShrinkPayload(slot, payload);
        return true;
      }
      if |key| - prefix + |payload| <= FreeSpace() {
        StoreAgain(slot, key, payload);
        return true;
      }
      if FreeSpaceAfterCompaction() < |payload| - slots[slot].payloadLength {
        return false;
      }
      CompactAndStore(slot, key, payload);
      return true;
    }

    // ---------------------------------------------------------- inserting

    /** Opens a slot and stores a record in it, before it counts. */
    method OpenAndStore(slot: nat, key: Bytestring, payload: Bytestring)
      requires slot <= count < slots.Length && prefix <= |key| && |key| - prefix + |payload| <= top <= heap.Length
      modifies this`top, this`used, slots, heap
      ensures top == old(top) - (|key| - prefix + |payload|) && used == old(used) + (|key| - prefix + |payload|)
      ensures slots[slot] == Slot(top, |key| - prefix, |payload|, ExtractHead(key[prefix..]))
      ensures slots[..count + 1] == PageLayout.Insert(old(slots[..count]), slot, slots[slot])
      ensures Overwritten(old(heap[..]), heap[..], top, key[prefix..] + payload)
    {
      ghost var all := slots[..];
      OpenSlot(slots, slot, count);
      ghost var shifted := slots[..];
      ShiftedSlots(all, shifted, slot, count);
      StoreKeyValue(slot, key, payload);
    }

    /** Opens a slot, stores a record in it and counts it. */
    method StoreNew(slot: nat, key: Bytestring, payload: Bytestring)
      requires Formed() && slot <= count && prefix <= |key|
      requires 10 + |key| - prefix + |payload| <= FreeSpace()
      modifies this`count, this`top, this`used, slots, heap
      ensures Formed() && Stem() == old(Stem()) && Bounds() == old(Bounds()) && count == old(count) + 1
      ensures Records() == PageLayout.Insert(old(Records()), slot, Record(key[prefix..], payload))
      ensures slots[..slot] == old(slots[..count])[..slot]
      ensures FreeSpaceAfterCompaction() == old(FreeSpaceAfterCompaction()) - (10 + |key| - prefix + |payload|)
    {
      ghost var p := View();
      CapacityBound(heap.Length, count + 1);
      OpenAndStore(slot, key, payload);
      count := count + 1;
      InsertedSound(p, View(), prefix, slot, slots[slot], key[prefix..], payload);
      assert slots[..slot] == slots[..count][..slot];
    }

    /** Puts a record in a new slot. */
    method InsertAt(slot: nat, key: Bytestring, payload: Bytestring)
      requires Formed() && slot <= count && prefix <= |key|
      requires 10 + |key| - prefix + |payload| <= FreeSpace()
      modifies this`count, this`top, this`used, slots, heap, hint
      ensures Formed() && Stem() == old(Stem()) && Bounds() == old(Bounds()) && count == old(count) + 1
      ensures Records() == PageLayout.Insert(old(Records()), slot, Record(key[prefix..], payload))
      ensures old(HintsFresh()) ==> HintsFresh()
      ensures FreeSpaceAfterCompaction() == old(FreeSpaceAfterCompaction()) - (10 + |key| - prefix + |payload|)
    {
      ghost var before, h := slots[..count], hint[..];
      StoreNew(slot, key, payload);
      UpdateHint(slot);
      UpdatedHints(h, hint[..], before, slots[..], count, slot);
    }

    ghost predicate Searchable()
      requires Shaped()
      reads this, heap, slots, hint
    {
      Sorted() && HintsFresh()
    }

    /** The page as its operations see it: a map and the bytes left for it. */
    ghost function Abstract(): Sheet
      requires Shaped()
      reads this, heap, slots
    {
      Sheet(Contents(), FreeSpaceAfterCompaction(), prefix)
    }

    /** Makes room for a record and puts it in a new slot. */
    method InsertNew(slot: nat, key: Bytestring, payload: Bytestring) returns (ok: bool)
      requires Formed() && slot <= count && prefix <= |key|
      modifies this, heap, slots, hint
      ensures Formed() && Stem() == old(Stem()) && Bounds() == old(Bounds()) && prefix == old(prefix)
      ensures ok <==> 10 + |key| - prefix + |payload| <= old(FreeSpaceAfterCompaction())
      ensures ok ==> Records() == PageLayout.Insert(old(Records()), slot, Record(key[prefix..], payload))
      ensures ok ==> FreeSpaceAfterCompaction() == old(FreeSpaceAfterCompaction()) - (10 + |key| - prefix + |payload|)
      ensures !ok ==> View() == old(View())
      ensures old(HintsFresh()) ==> HintsFresh()
    {
      ok := RequestSpaceFor(10 + |key| - prefix + |payload|);
      if ok {
        InsertAt(slot, key, payload);
      }
    }

    /** Stores a record where a search says it belongs. */
    method InsertRecord(key: Bytestring, payload: Bytestring) returns (ok: bool, ghost slot: nat, ghost found: bool)
      requires Formed() && StartsWith(key, Stem())
      modifies this, heap, slots, hint
      ensures Formed() && Stem() == old(Stem()) && Bounds() == old(Bounds()) && prefix == old(prefix) && prefix <= |key|
      ensures !ok ==> View() == old(View())
      ensures old(HintsFresh()) ==> HintsFresh()
      ensures old(Sorted()) ==> Searched(KeysOf(old(Records())), key[prefix..],
                                         HintRange(old(hint[..]), ExtractHead(key[prefix..]), old(count)), slot, found)
      ensures slot <= old(count) && (found ==> slot < old(count) && old(Records())[slot].key == key[prefix..])
      ensures var growth := if found then |payload| - |old(Records())[slot].payload| else 10 + |key| - prefix + |payload|;
              && (ok <==> growth <= old(FreeSpaceAfterCompaction()))
              && (ok ==> FreeSpaceAfterCompaction() == old(FreeSpaceAfterCompaction()) - growth)
      ensures ok ==> Records() == Placed(old(Records()), slot, found, Record(key[prefix..], payload))
    {
      StemShape(View(), prefix);
      var at, hit := LowerBound(key);
      slot, found := at, hit;
      if hit {
        PrefixInjective(Stem(), Records()[slot].key, key[prefix..]);
        ok := HandleDuplicateInsertion(at, key, payload);
      } else {
        ok := InsertNew(at, key, payload);
      }
    }

    /** Stores `payload` under `key`; fails, changing nothing, only if it could not fit even without gaps. */
    method Insert(key: Bytestring, payload: Bytestring) returns (ok: bool)
      requires Formed() && StartsWith(key, Stem())
      modifies this, heap, slots, hint
      ensures Formed() && Stem() == old(Stem()) && Bounds() == old(Bounds()) && prefix == old(prefix)
      ensures !ok ==> View() == old(View())
      ensures old(Searchable()) ==> Searchable() && ok == old(Abstract()).Fits(key, payload)
      ensures old(Searchable()) ==> Abstract() == old(Abstract()).Put(key, payload)
    {
      ghost var p, h, was, room := View(), hint[..], Searchable(), FreeSpaceAfterCompaction();
      ghost var slot, found;
      ok, slot, found := InsertRecord(key, payload);
      if was {
        PutOutcome(p, prefix, h, key, slot, found, payload, ok, Records(), room, FreeSpaceAfterCompaction());
      }
    }

    /** Gives a stored key a new payload, or removes the key if the new payload cannot fit. */
    method UpdateOrRemove(key: Bytestring, payload: Bytestring) returns (ok: bool)
      requires Formed()
      modifies this, heap, slots, hint
      ensures Formed() && Stem() == old(Stem()) && Bounds() == old(Bounds()) && prefix == old(prefix)
      ensures old(Searchable()) ==> Searchable() && ok == (key in old(Contents()) && old(Abstract()).Fits(key, payload))
      ensures old(Searchable()) ==> Abstract() == if ok then old(Abstract()).Put(key, payload) else old(Abstract()).Drop(key)
    {
      ghost var rs, stem, was, room := Records(), Stem(), Searchable(), FreeSpaceAfterCompaction();
      StemShape(View(), prefix);
      ghost var slot, found;
      ok, slot, found := UpdateRecord(key, payload);
      if was {
        UpdateOutcome(stem, rs, key, slot, found, ok, payload, prefix, room, FreeSpaceAfterCompaction());
      }
    }

    /** Looks a key up and gives its slot a new payload, or removes the slot. */
    method UpdateRecord(key: Bytestring, payload: Bytestring) returns (ok: bool, ghost slot: nat, ghost found: bool)
      requires Formed()
      modifies this, heap, slots, hint
      ensures Formed() && Stem() == old(Stem()) && Bounds() == old(Bounds()) && prefix == old(prefix)
      ensures old(HintsFresh()) ==> HintsFresh()
      ensures found ==> slot < old(count) && key == old(Stem()) + old(Records())[slot].key
      ensures FreeSpaceAfterCompaction() == RoomAfter(old(Records()), slot, found, ok, payload, old(FreeSpaceAfterCompaction()))
      ensures old(Searchable()) ==> (found <==> key in FullKeys(old(Stem()), old(Records())))
      ensures ok <==> found && |payload| - |old(Records())[slot].payload| <= old(FreeSpaceAfterCompaction())
      ensures Records() == Updated(old(Records()), slot, found, ok, payload)
    {
      var at, hit := LowerBound(key);
      slot, found := at, hit;
      if !hit {
        return false, slot, found;
      }
      ok := UpdateSlot(at, key, payload);
    }

    /** Gives the slot of a key a new payload, or removes the slot. */
    method UpdateSlot(slot: nat, key: Bytestring, payload: Bytestring) returns (ok: bool)
      requires Formed() && slot < count && key == Stem() + Records()[slot].key
      modifies this, heap, slots, hint
      ensures Formed() && Stem() == old(Stem()) && Bounds() == old(Bounds()) && prefix == old(prefix)
      ensures old(HintsFresh()) ==> HintsFresh()
      ensures FreeSpaceAfterCompaction() == RoomAfter(old(Records()), slot, true, ok, payload, old(FreeSpaceAfterCompaction()))
      ensures ok <==> |payload| - |old(Records())[slot].payload| <= old(FreeSpaceAfterCompaction())
      ensures Records() == Updated(old(Records()), slot, true, ok, payload)
    {
      ok := HandleDuplicateInsertion(slot, key, payload);
      if !ok {
        RemoveSlot(slot);
      }
    }

    // ---------------------------------------------------------- appending

    /** How a key compares with the last key: negative, zero or positive. */
    method CanAppend(key: Bytestring, ghost rest: Bytestring) returns (sign: int)
      requires Formed() && prefix <= |key| && rest == key[prefix..]
      ensures TailSign(Records(), rest, sign)
    {
      if count == 0 {
        return 1;
      }
      GetRecord(count - 1);
      sign := CompareKeys(key[prefix..], GetKey(count - 1));
    }

    /** Samples the directory for an append, before the new slot counts. */
    method HintForAppend()
      requires Shaped() && count < slots.Length
      modifies hint
      ensures Refreshable(old(hint[..]), SlotHeads(slots[..count])) && Rising(SlotHeads(slots[..count + 1])) ==>
                Appended(hint[..], SlotHeads(slots[..count + 1]), SlotHeads(slots[..count]))
    {
      ghost var h := hint[..];
      UpdateHint(count);
      AppendedHints(h, hint[..], slots[..], count);
    }

    /** Stores a record in the slot behind the last one, which does not count yet. */
    method StoreBehind(key: Bytestring, payload: Bytestring)
      requires Formed() && prefix <= |key| && 10 + |key| - prefix + |payload| <= FreeSpace()
      modifies this`top, this`used, slots, heap
      ensures count < slots.Length && slots[..count] == old(slots[..count])
      ensures Sound(ViewOf(count + 1), prefix) && Prefix(ViewOf(count + 1), prefix) == old(Stem()) && SameFences(old(View()), ViewOf(count + 1))
      ensures ViewOf(count + 1).Content() == PageLayout.Insert(old(Records()), count, Record(key[prefix..], payload))
      ensures used == old(used) + (|key| - prefix + |payload|)
    {
      ghost var p, all := View(), slots[..];
      CapacityBound(heap.Length, count + 1);
      StoreKeyValue(count, key, payload);
      InsertedSound(p, ViewOf(count + 1), prefix, count, slots[count], key[prefix..], payload);
    }

    /** Stores a record behind the last one. The hints are sampled before the new slot counts. */
    method AppendLast(key: Bytestring, payload: Bytestring)
      requires Formed() && prefix <= |key| && 10 + |key| - prefix + |payload| <= FreeSpace()
      modifies this`count, this`top, this`used, slots, heap, hint
      ensures Formed() && Stem() == old(Stem()) && Bounds() == old(Bounds()) && count == old(count) + 1
      ensures Grown(old(Records()), Records(), Record(key[prefix..], payload),
                    old(FreeSpaceAfterCompaction()), FreeSpaceAfterCompaction())
      ensures Refreshable(old(hint[..]), old(SlotHeads(slots[..count]))) && Rising(SlotHeads(slots[..count])) ==>
                Appended(hint[..], SlotHeads(slots[..count]), old(SlotHeads(slots[..count])))
    {
      StoreBehind(key, payload);
      HintForAppend();
      count := count + 1;
    }

    /** Appends a record whose key comes after all others. */
    method AppendBeyond(key: Bytestring, payload: Bytestring, ghost rest: Bytestring)
      requires Formed() && key == Stem() + rest && prefix <= |key| && rest == key[prefix..]
      requires 10 + |key| - prefix + |payload| <= FreeSpace()
      modifies this`count, this`top, this`used, slots, heap, hint
      ensures Formed() && Stem() == old(Stem()) && Bounds() == old(Bounds())
      ensures Grown(old(Records()), Records(), Record(rest, payload), old(FreeSpaceAfterCompaction()), FreeSpaceAfterCompaction())
      ensures old(Sorted()) && Beyond(old(Records()), rest) ==>
                Sorted() && Contents() == old(Contents())[key := payload]
      ensures old(AtEnd(rest)) ==> Appended(hint[..], SlotHeads(slots[..count]), old(SlotHeads(slots[..count])))
    {
      ghost var rs, stem := Records(), Stem();
      AppendLast(key, payload);
      if Ascending(KeysOf(rs)) && Beyond(rs, rest) {
        InsertedEntries(stem, rs, |rs|, Record(rest, payload));
        HeadsRise(KeysOf(Records()));
      }
    }

    /** Replaces the payload of the last record. */
    method ReplaceLast(key: Bytestring, payload: Bytestring) returns (ok: bool)
      requires Formed() && count > 0 && key == Stem() + Records()[count - 1].key
      requires 10 + |key| - prefix + |payload| <= FreeSpace()
      modifies this`lower, this`upper, this`top, this`used, slots, heap
      ensures Formed() && Stem() == old(Stem()) && Bounds() == old(Bounds()) && ok
      ensures old(Sorted()) ==> Sorted() && Contents() == old(Contents())[key := payload]
      ensures old(HintsFresh()) ==> HintsFresh()
    {
      ghost var rs := Records();
      StemShape(View(), prefix);
      ok := HandleDuplicateInsertion(count - 1, key, payload);
      if Ascending(KeysOf(rs)) {
        UpdatedEntries(Stem(), rs, |rs| - 1, payload);
      }
    }

    /** The key can be placed without trusting stale hints. */
    ghost predicate Placeable(rest: Bytestring)
      requires Shaped()
      reads this, heap, slots, hint
    {
      Sorted() && (HintsFresh() || count == 0 || !Less(rest, Records()[count - 1].key))
    }

    /** The key comes last and the hints can be brought up to date by appending it. */
    ghost predicate AtEnd(rest: Bytestring)
      requires Shaped()
      reads this, heap, slots, hint
    {
      Sorted() && Beyond(Records(), rest) && Refreshable(hint[..], SlotHeads(slots[..count]))
    }

    /** Inserts a key that comes before the last one, once there is room. */
    method AppendBefore(key: Bytestring, payload: Bytestring, ghost rest: Bytestring) returns (ok: bool)
      requires Formed() && StartsWith(key, Stem()) && prefix <= |key|
      requires 10 + |key| - prefix + |payload| <= FreeSpace()
      requires count > 0 && Less(rest, Records()[count - 1].key)
      modifies this, heap, slots, hint
      ensures Formed() && Stem() == old(Stem()) && Bounds() == old(Bounds())
      ensures !ok ==> Records() == old(Records())
      ensures old(Placeable(rest)) ==> ok && Sorted() && Contents() == old(Contents())[key := payload]
      ensures old(Searchable()) ==> HintsFresh()
    {
      ok := Insert(key, payload);
    }

    /** Stores a key that does not come after the last one, once there is room. */
    method AppendWithin(key: Bytestring, payload: Bytestring, sign: int, ghost rest: Bytestring) returns (ok: bool)
      requires Formed() && StartsWith(key, Stem()) && prefix <= |key| && key == Stem() + rest
      requires TailSign(Records(), rest, sign) && sign <= 0
      requires 10 + |key| - prefix + |payload| <= FreeSpace()
      modifies this, heap, slots, hint
      ensures Formed() && Stem() == old(Stem()) && Bounds() == old(Bounds())
      ensures !ok ==> Records() == old(Records())
      ensures old(Placeable(rest)) ==> ok && Sorted() && Contents() == old(Contents())[key := payload]
      ensures old(Searchable()) ==> HintsFresh()
    {
      if sign == 0 {
        ok := ReplaceLast(key, payload);
      } else {
        ok := AppendBefore(key, payload, rest);
      }
    }

    /** Appends once there is room, in whichever of the three ways applies. */
    method AppendChecked(key: Bytestring, payload: Bytestring, ghost rest: Bytestring) returns (ok: bool)
      requires Formed() && StartsWith(key, Stem()) && prefix <= |key| && rest == key[prefix..] && key == Stem() + rest
      requires 10 + |key| - prefix + |payload| <= FreeSpace()
      modifies this, heap, slots, hint
      ensures Formed() && Stem() == old(Stem()) && Bounds() == old(Bounds())
      ensures !ok ==> Records() == old(Records())
      ensures old(Placeable(rest)) ==> ok && Sorted() && Contents() == old(Contents())[key := payload]
      ensures old(AtEnd(rest)) ==> Appended(hint[..], SlotHeads(slots[..count]), old(SlotHeads(slots[..count])))
      ensures old(Searchable()) && !Beyond(old(Records()), rest) ==> HintsFresh()
      ensures old(AtEnd(rest)) ==>
                Grown(old(Records()), Records(), Record(rest, payload), old(FreeSpaceAfterCompaction()), FreeSpaceAfterCompaction())
    {
      var sign := CanAppend(key, rest);
      TailSignBeyond(Records(), rest, sign);
      if sign > 0 {
        AppendBeyond(key, payload, rest);
        return true;
      }
      assert !AtEnd(rest);
      ok := AppendWithin(key, payload, sign, rest);
    }

    method AppendWithRoom(key: Bytestring, payload: Bytestring, checks: bool, ghost rest: Bytestring) returns (ok: bool)
      requires Formed() && StartsWith(key, Stem()) && prefix <= |key| && rest == key[prefix..] && key == Stem() + rest
      requires 10 + |key| - prefix + |payload| <= FreeSpace() && (checks || Beyond(Records(), rest))
      modifies this, heap, slots, hint
      ensures Formed() && Stem() == old(Stem()) && Bounds() == old(Bounds())
      ensures !ok ==> Records() == old(Records())
      ensures old(Placeable(rest)) ==> ok && Sorted() && Contents() == old(Contents())[key := payload]
      ensures old(AtEnd(rest)) ==> Appended(hint[..], SlotHeads(slots[..count]), old(SlotHeads(slots[..count])))
      ensures old(Searchable()) && !Beyond(old(Records()), rest) ==> HintsFresh()
      ensures old(AtEnd(rest)) ==>
                Grown(old(Records()), Records(), Record(rest, payload), old(FreeSpaceAfterCompaction()), FreeSpaceAfterCompaction())
    {
      if checks {
        ok := AppendChecked(key, payload, rest);
      } else {
        AppendBeyond(key, payload, rest);
        ok := true;
      }
    }

    /** Appends a record; fails only if a new record could not fit even without gaps. */
    method Append(key: Bytestring, payload: Bytestring, checks: bool, ghost rest: Bytestring) returns (ok: bool)
      requires Formed() && key == Stem() + rest && (checks || Beyond(Records(), rest))
      modifies this, heap, slots, hint
      ensures Formed() && Stem() == old(Stem()) && Bounds() == old(Bounds())
      ensures !ok ==> Records() == old(Records())
      ensures old(Placeable(rest)) ==>
                Sorted() && (ok <==> 10 + |rest| + |payload| <= old(FreeSpaceAfterCompaction()))
      ensures old(Placeable(rest)) && ok ==> Contents() == old(Contents())[key := payload]
      ensures old(AtEnd(rest)) && ok ==> Appended(hint[..], SlotHeads(slots[..count]), old(SlotHeads(slots[..count])))
      ensures old(AtEnd(rest)) && ok ==> (Serving() <==> AppendServes(old(SlotHeads(slots[..count]))))
      ensures old(AtEnd(rest)) && ok ==>
                Grown(old(Records()), Records(), Record(rest, payload), old(FreeSpaceAfterCompaction()), FreeSpaceAfterCompaction())
      ensures old(Searchable()) && !Beyond(old(Records()), rest) ==> HintsFresh()
    {
      StemShape(View(), prefix);
      RestIs(Stem(), rest, key, prefix);
      ok := RequestSpaceFor(10 + |key| - prefix + |payload|);
      if ok {
        ok := AppendWithRoom(key, payload, checks, rest);
      }
    }

    // ---------------------------------------------------------- runs

    method Apply(op: Op) returns (ok: bool)
      requires Formed() && Searchable() && op.Within(Stem())
      modifies this, heap, slots, hint
      ensures Formed() && Searchable() && Stem() == old(Stem()) && Bounds() == old(Bounds())
      ensures ok == op.Succeeds(old(Abstract())) && Abstract() == op.After(old(Abstract()))
    {
      match op
      case Put(key, payload) => ok := Insert(key, payload);
      case Update(key, payload) => ok := UpdateOrRemove(key, payload);
      case Delete(key) => ok := Remove(key);
    }

    /** Over any run the page is the map that the operations describe, and they fail only for lack of bytes or of the key. */
    method Run(ops: seq<Op>) returns (oks: seq<bool>)
      requires Formed() && Searchable() && AllWithin(ops, Stem())
      modifies this, heap, slots, hint
      ensures Formed() && Searchable() && Stem() == old(Stem()) && Bounds() == old(Bounds())
      ensures Abstract() == AfterAll(old(Abstract()), ops) && oks == Outcomes(old(Abstract()), ops)
    {
      oks := [];
      ghost var start, stem := Abstract(), Stem();
      for i := 0 to |ops|
        invariant Formed() && Searchable() && Stem() == stem && Bounds() == old(Bounds())
        invariant Abstract() == AfterAll(start, ops[..i]) && oks == Outcomes(start, ops[..i])
      {
        assert ops[i].Within(stem);
        AfterNext(start, ops, i);
        var ok := Apply(ops[i]);
        oks := oks + [ok];
      }
      assert ops[..|ops|] == ops;
    }
  }

  /** A map in a page, and the bytes that are left for it; each key is stored without the first `stem` bytes. */
  datatype Sheet = Sheet(contents: map<Bytestring, Bytestring>, room: int, stem: nat) {
    /** What storing a record adds to the bytes in use. */
    function Growth(key: Bytestring, payload: Bytestring): int {
      if key in contents then |payload| - |contents[key]| else 10 + |key| - stem + |payload|
    }

    predicate Fits(key: Bytestring, payload: Bytestring) {
      Growth(key, payload) <= room
    }

    function Put(key: Bytestring, payload: Bytestring): Sheet {
      if Fits(key, payload) then Sheet(contents[key := payload], room - Growth(key, payload), stem) else this
    }

    function Drop(key: Bytestring): Sheet {
      if key in contents then Sheet(contents - {key}, room + 10 + |key| - stem + |contents[key]|, stem) else this
    }
  }

  /** The bytes of a slot and its record. */
  ghost function Weight(r: Record): nat {
    10 + |r.key| + |r.payload|
  }

  /** A record came behind the others and took its bytes. */
  ghost predicate Grown(rs: seq<Record>, rs': seq<Record>, r: Record, room: int, room': int) {
    rs' == PageLayout.Insert(rs, |rs|, r) && room' == room - Weight(r)
  }

  /** An operation on a page. */
  datatype Op =
    | Put(key: Bytestring, payload: Bytestring)
    | Update(key: Bytestring, payload: Bytestring)
    | Delete(key: Bytestring)
  {
    /** Only insertions have to stay between the fences. */
    ghost predicate Within(stem: Bytestring) {
      Put? ==> StartsWith(key, stem)
    }

    /** Whether the operation reports success. */
    ghost predicate Succeeds(s: Sheet) {
      match this
      case Put(key, payload) => s.Fits(key, payload)
      case Update(key, payload) => key in s.contents && s.Fits(key, payload)
      case Delete(key) => key in s.contents
    }

    /** What the operation leaves; an update that does not fit removes the key. */
    ghost function After(s: Sheet): Sheet {
      match this
      case Put(key, payload) => s.Put(key, payload)
      case Update(key, payload) => if Succeeds(s) then s.Put(key, payload) else s.Drop(key)
      case Delete(key) => s.Drop(key)
    }
  }

  ghost predicate AllWithin(ops: seq<Op>, stem: Bytestring) {
    forall i | 0 <= i < |ops| :: ops[i].Within(stem)
  }

  ghost function AfterAll(s: Sheet, ops: seq<Op>): Sheet {
    if |ops| == 0 then s else ops[|ops| - 1].After(AfterAll(s, ops[..|ops| - 1]))
  }

  /** Which operations of a run report success. */
  ghost function Outcomes(s: Sheet, ops: seq<Op>): seq<bool> {
    if |ops| == 0 then []
    else
      var rest := ops[..|ops| - 1];
      Outcomes(s, rest) + [ops[|ops| - 1].Succeeds(AfterAll(s, rest))]
  }

  lemma AfterNext(s: Sheet, ops: seq<Op>, i: nat)
    requires i < |ops|
    ensures AfterAll(s, ops[..i + 1]) == ops[i].After(AfterAll(s, ops[..i]))
    ensures Outcomes(s, ops[..i + 1]) == Outcomes(s, ops[..i]) + [ops[i].Succeeds(AfterAll(s, ops[..i]))]
  {
    assert ops[..i + 1][..i] == ops[..i];
  }

  /** The key comes after those of all records. */
  ghost predicate Beyond(rs: seq<Record>, key: Bytestring) {
    AllBelow(KeysOf(rs), 0, |rs|, key)
  }

  /** The sign of comparing a key with the last one; positive if there is none. */
  ghost predicate TailSign(rs: seq<Record>, key: Bytestring, sign: int) {
    && (sign == 0 <==> |rs| > 0 && key == rs[|rs| - 1].key)
    && (sign < 0 <==> |rs| > 0 && Less(key, rs[|rs| - 1].key))
  }

  lemma TailSignBeyond(rs: seq<Record>, key: Bytestring, sign: int)
    requires TailSign(rs, key, sign)
    ensures Ascending(KeysOf(rs)) ==> (sign > 0 <==> Beyond(rs, key))
  {
    if Ascending(KeysOf(rs)) {
      BeyondLast(rs, key);
      if |rs| > 0 {
        OneOrder(key, rs[|rs| - 1].key);
      }
    }
  }

  lemma BeyondLast(rs: seq<Record>, key: Bytestring)
    requires Ascending(KeysOf(rs))
    ensures Beyond(rs, key) <==> |rs| == 0 || Less(rs[|rs| - 1].key, key)
  {
    if |rs| > 0 {
      if Less(rs[|rs| - 1].key, key) {
        BelowUpTo(KeysOf(rs), 0, |rs| - 1, key);
      } else {
        assert !Less(KeysOf(rs)[|rs| - 1], key);
      }
    }
  }

  lemma AppendedHints(hint: seq<nat>, hint': seq<nat>, slots: seq<Slot>, n: nat)
    requires n < |slots| && Resampled(hint, hint', SlotHeads(slots), Distance(n), UpdateBegin(n, n))
    ensures Refreshable(hint, SlotHeads(slots[..n])) && Rising(SlotHeads(slots[..n + 1])) ==>
              Appended(hint', SlotHeads(slots[..n + 1]), SlotHeads(slots[..n]))
  {
    var heads := SlotHeads(slots[..n]);
    assert SlotHeads(slots[..n + 1]) == heads + [slots[n].head];
    if Refreshable(hint, heads) && Rising(heads + [slots[n].head]) {
      if n > 0 {
        ResampledPrefix(hint, hint', slots, n);
        AppendSamples(hint, hint', heads);
        AppendFresh(hint', heads, slots[n].head);
      }
      AppendServesIff(hint', heads, slots[n].head);
    }
  }

  lemma ResampledPrefix(hint: seq<nat>, hint': seq<nat>, slots: seq<Slot>, n: nat)
    requires 0 < n <= |slots| && Resampled(hint, hint', SlotHeads(slots), Distance(n), UpdateBegin(n, n))
    ensures Resampled(hint, hint', SlotHeads(slots[..n]), Distance(n), UpdateBegin(n, n))
  {
    forall i | UpdateBegin(n, n) <= i < 16
      ensures Sample(Distance(n), i) < n && hint'[i] == SlotHeads(slots[..n])[Sample(Distance(n), i)]
    {
      SampleBound(n, i);
    }
  }

  /** A record put in a new slot, or in the place of one with the same key. */
  function Placed(rs: seq<Record>, slot: nat, found: bool, r: Record): seq<Record>
    requires slot <= |rs| && (found ==> slot < |rs|)
  {
    if found then rs[slot := r] else PageLayout.Insert(rs, slot, r)
  }

  /** What an insertion at the slot that a lookup gave means for the map. */
  lemma {:induction false} InsertOutcome(p: Page, n: nat, hint: seq<nat>, key: Bytestring, slot: nat, found: bool, payload: Bytestring)
    requires Sound(p, n) && Ordered(p) && |hint| == 16 && Fresh(hint, SlotHeads(p.slots))
    requires StartsWith(key, Prefix(p, n)) && n <= |key|
    requires Searched(KeysOf(p.Content()), key[n..], HintRange(hint, ExtractHead(key[n..]), |p.slots|), slot, found)
    ensures found <==> key in Entries(Prefix(p, n), p.Content())
    ensures found ==> Entries(Prefix(p, n), p.Content())[key] == p.Content()[slot].payload
    ensures Ascending(KeysOf(Placed(p.Content(), slot, found, Record(key[n..], payload))))
    ensures Entries(Prefix(p, n), Placed(p.Content(), slot, found, Record(key[n..], payload)))
            == Entries(Prefix(p, n), p.Content())[key := payload]
  {
    StemShape(p, n);
    assert key == Prefix(p, n) + key[n..];
    LookedUp(p, n, hint, key[n..], slot, found);
    PlacedEntries(Prefix(p, n), p.Content(), slot, found, Record(key[n..], payload));
  }

  /** A record given a new payload, or removed if that failed. */
  function Updated(rs: seq<Record>, slot: nat, found: bool, ok: bool, payload: Bytestring): seq<Record>
    requires found ==> slot < |rs|
  {
    if !found then rs
    else if ok then rs[slot := Record(rs[slot].key, payload)]
    else PageLayout.Remove(rs, slot)
  }

  /** The bytes left after a record was given a new payload, or removed if that failed. */
  ghost function RoomAfter(rs: seq<Record>, slot: nat, found: bool, ok: bool, payload: Bytestring, room: int): int {
    if !found || slot >= |rs| then room
    else if ok then room + |rs[slot].payload| - |payload|
    else room + Weight(rs[slot])
  }

  /** What an insertion means for the map and the bytes left. */
  lemma {:induction false} PutOutcome(p: Page, n: nat, hint: seq<nat>, key: Bytestring, slot: nat, found: bool, payload: Bytestring, ok: bool,
                   rs: seq<Record>, room: int, room': int)
    requires Sound(p, n) && Ordered(p) && |hint| == 16 && Fresh(hint, SlotHeads(p.slots))
    requires StartsWith(key, Prefix(p, n)) && n <= |key| && (found ==> slot < |p.slots|)
    requires Searched(KeysOf(p.Content()), key[n..], HintRange(hint, ExtractHead(key[n..]), |p.slots|), slot, found)
    requires var growth := if found then |payload| - |p.Content()[slot].payload| else 10 + |key| - n + |payload|;
             (ok <==> growth <= room) && room' == if ok then room - growth else room
    requires rs == if ok then Placed(p.Content(), slot, found, Record(key[n..], payload)) else p.Content()
    ensures var before := Sheet(Entries(Prefix(p, n), p.Content()), room, n);
            ok == before.Fits(key, payload) && Sheet(Entries(Prefix(p, n), rs), room', n) == before.Put(key, payload)
    ensures Ascending(KeysOf(rs))
  {
    InsertOutcome(p, n, hint, key, slot, found, payload);
  }

  /** What taking a record out means for the map and the bytes left. */
  lemma {:induction false} DropOutcome(stem: Bytestring, rs: seq<Record>, slot: nat, n: nat, room: int)
    requires Ascending(KeysOf(rs)) && slot < |rs| && n == |stem|
    ensures var key := stem + rs[slot].key;
            Sheet(Entries(stem, PageLayout.Remove(rs, slot)), room + Weight(rs[slot]), n) == Sheet(Entries(stem, rs), room, n).Drop(key)
  {
    OrderedOnlyAt(rs, slot);
    EntriesAt(stem, rs, slot);
    RemovedEntries(stem, rs, slot);
  }

  /** What an update or removal at the slot that a lookup gave means for the map and the bytes left. */
  lemma UpdateOutcome(stem: Bytestring, rs: seq<Record>, key: Bytestring, slot: nat, found: bool, ok: bool, payload: Bytestring,
                      n: nat, room: int, room': int)
    requires Ascending(KeysOf(rs)) && (found <==> key in FullKeys(stem, rs)) && (ok ==> found) && n == |stem|
    requires found ==> slot < |rs| && key == stem + rs[slot].key && (ok <==> |payload| - |rs[slot].payload| <= room)
    requires room' == RoomAfter(rs, slot, found, ok, payload, room)
    ensures Ascending(KeysOf(Updated(rs, slot, found, ok, payload)))
    ensures var before := Sheet(Entries(stem, rs), room, n);
            && ok == (key in before.contents && before.Fits(key, payload))
            && Sheet(Entries(stem, Updated(rs, slot, found, ok, payload)), room', n)
               == if ok then before.Put(key, payload) else before.Drop(key)
  {
    EntriesKeys(stem, rs, key);
    if found {
      OrderedOnlyAt(rs, slot);
      EntriesAt(stem, rs, slot);
      if ok {
        UpdatedEntries(stem, rs, slot, payload);
      } else {
        RemovedEntries(stem, rs, slot);
        DropOutcome(stem, rs, slot, n, room);
      }
    }
  }

  lemma {:induction false} PlacedEntries(stem: Bytestring, rs: seq<Record>, slot: nat, found: bool, r: Record)
    requires Ascending(KeysOf(rs)) && Searched(KeysOf(rs), r.key, Range(0, |rs|), slot, found)
    ensures Ascending(KeysOf(Placed(rs, slot, found, r)))
    ensures Entries(stem, Placed(rs, slot, found, r)) == Entries(stem, rs)[stem + r.key := r.payload]
  {
    if found {
      UpdatedEntries(stem, rs, slot, r.payload);
    } else {
      InsertedEntries(stem, rs, slot, r);
    }
  }

  /** With fresh hints a lookup is right about the whole directory. */
  lemma {:induction false} LookedUp(p: Page, n: nat, hint: seq<nat>, rest: Bytestring, slot: nat, found: bool)
    requires Sound(p, n) && Ordered(p) && |hint| == 16 && Fresh(hint, SlotHeads(p.slots))
    requires Searched(KeysOf(p.Content()), rest, HintRange(hint, ExtractHead(rest), |p.slots|), slot, found)
    ensures Searched(KeysOf(p.Content()), rest, Range(0, |p.slots|), slot, found)
    ensures found <==> Prefix(p, n) + rest in Entries(Prefix(p, n), p.Content())
    ensures found ==> Entries(Prefix(p, n), p.Content())[Prefix(p, n) + rest] == p.Content()[slot].payload
  {
    var keys, r := KeysOf(p.Content()), HintRange(hint, ExtractHead(rest), |p.slots|);
    RangeEncloses(hint, keys, rest);
    SearchedFresh(p, n, hint, rest, slot, found);
    EntriesKeys(Prefix(p, n), p.Content(), Prefix(p, n) + rest);
    if found {
      OrderedOnlyAt(p.Content(), slot);
      EntriesAt(Prefix(p, n), p.Content(), slot);
    }
  }

  lemma UpdatedEntries(stem: Bytestring, rs: seq<Record>, i: nat, payload: Bytestring)
    requires Ascending(KeysOf(rs)) && i < |rs|
    ensures KeysOf(rs[i := Record(rs[i].key, payload)]) == KeysOf(rs)
    ensures Entries(stem, rs[i := Record(rs[i].key, payload)]) == Entries(stem, rs)[stem + rs[i].key := payload]
  {
    OrderedOnlyAt(rs, i);
    EntriesUpdate(stem, rs, i, payload);
  }

  lemma {:induction false} InsertedEntries(stem: Bytestring, rs: seq<Record>, i: nat, r: Record)
    requires Ascending(KeysOf(rs)) && Searched(KeysOf(rs), r.key, Range(0, |rs|), i, false)
    ensures Ascending(KeysOf(PageLayout.Insert(rs, i, r)))
    ensures Entries(stem, PageLayout.Insert(rs, i, r)) == Entries(stem, rs)[stem + r.key := r.payload]
  {
    KeysInsert(rs, i, r);
    AscendingInsert(KeysOf(rs), i, r.key);
    SearchedMiss(KeysOf(rs), r.key, Range(0, |rs|), i);
    forall j | 0 <= j < |rs|
      ensures rs[j].key != r.key
    {
      assert KeysOf(rs)[0..|rs|][j] == rs[j].key;
    }
    EntriesInsert(stem, rs, i, r);
  }

  lemma UpdatedHints(hint: seq<nat>, hint': seq<nat>, before: seq<Slot>, slots: seq<Slot>, count: nat, slot: nat)
    requires slot <= |before| == count - 1 && count <= |slots| && slots[..slot] == before[..slot]
    requires Resampled(hint, hint', SlotHeads(slots), Distance(count), UpdateBegin(count, slot))
    ensures Fresh(hint, SlotHeads(before)) ==> Fresh(hint', SlotHeads(slots[..count]))
  {
    var heads, heads' := SlotHeads(before), SlotHeads(slots[..count]);
    assert Resampled(hint, hint', heads', Distance(count), UpdateBegin(count, slot)) by {
      forall i | UpdateBegin(count, slot) <= i < 16
        ensures Sample(Distance(count), i) < count && hint'[i] == heads'[Sample(Distance(count), i)]
      {
        SampleBound(count, i);
      }
    }
    if Fresh(hint, heads) {
      PrefixHeads(before, slots[..count], slot);
      PartialUpdate(hint, hint', heads, heads', slot);
    }
  }

  lemma PrefixHeads(a: seq<Slot>, b: seq<Slot>, n: nat)
    requires n <= |a| && n <= |b| && a[..n] == b[..n]
    ensures SlotHeads(a)[..n] == SlotHeads(b)[..n]
  {
    assert SlotHeads(a)[..n] == SlotHeads(a[..n]) && SlotHeads(b)[..n] == SlotHeads(b[..n]);
  }

  lemma RestIs(stem: Bytestring, rest: Bytestring, key: Bytestring, n: nat)
    requires key == stem + rest && |stem| == n
    ensures n <= |key| && key[n..] == rest
  {
  }

  /** A buffer with every surviving record in it is full. */
  lemma FullBuffer(p: Page, slot: nat, l: Extent, u: Extent, now: seq<Slot>, front: Bytestring, buf: Bytestring, off: nat)
    returns (q: Page)
    requires Counted(p) && slot < |now| == |p.slots| + 1 && |buf| == p.used
    requires AgreementOf(p, slot, l, u, front)(now, buf, off)
    ensures q == Buffered(l, u, Others(now, slot), front, buf, 0) && Rebuilt(p, q, |p.slots|)
  {
    BufferLeft(p, l, u, Others(now, slot), front, buf, off);
    q := Buffered(l, u, Others(now, slot), front, buf, 0);
  }

  /** When a directory, a buffer and the buffer's fill level agree. */
  type Agreement = (seq<Slot>, Bytestring, nat) -> bool

  /** The record of `from` is copied below the fill level and its slot comes next. */
  ghost predicate Advances(heap: Bytestring, from: Slot, now: seq<Slot>, buf: Bytestring, off: nat,
                           now': seq<Slot>, buf': Bytestring, off': nat) {
    && from.offset + from.Length() <= |heap| && off == off' + from.Length() && off <= |buf| <= |heap|
    && Overwritten(buf, buf', off', heap[from.offset..from.offset + from.Length()])
    && now' == now + [from.(offset := |heap| - |buf| + off')]
  }

  /** Whenever they agree, the next record is in the heap and there is room for it in the buffer. */
  ghost predicate Roomy(agree: Agreement, was: seq<Slot>, slot: nat, heap: Bytestring) {
    forall now, buf, off: nat | |now| < |was| && |now| != slot && agree(now, buf, off) ::
      was[|now|].offset + was[|now|].Length() <= |heap| && was[|now|].Length() <= off <= |buf|
  }

  /** Copying the next record keeps them in agreement. */
  ghost predicate Extends(agree: Agreement, was: seq<Slot>, slot: nat, heap: Bytestring) {
    forall now, buf, off: nat, now', buf', off': nat |
      && |now| < |was| && |now| != slot && agree(now, buf, off)
      && Advances(heap, was[|now|], now, buf, off, now', buf', off') :: agree(now', buf', off')
  }

  /** The slot that is left out does not matter. */
  ghost predicate Skips(agree: Agreement, slot: nat) {
    forall now, buf, off: nat, s | |now| == slot && agree(now, buf, off) :: agree(now + [s], buf, off)
  }

  ghost function AgreementOf(p: Page, slot: nat, l: Extent, u: Extent, front: Bytestring): (agree: Agreement)
    ensures forall now, buf, off: nat :: agree(now, buf, off) == MovedTo(p, l, u, now, slot, front, buf, off)
  {
    (now, buf, off: nat) => MovedTo(p, l, u, now, slot, front, buf, off)
  }

  lemma AgreementRoomy(p: Page, was: seq<Slot>, slot: nat, l: Extent, u: Extent, front: Bytestring)
    requires Moving(p, was, slot, p.heap) && |front| + p.used == |p.heap|
    ensures Roomy(AgreementOf(p, slot, l, u, front), was, slot, p.heap)
  {
    var agree := AgreementOf(p, slot, l, u, front);
    forall now, buf, off: nat | |now| < |was| && |now| != slot && agree(now, buf, off)
      ensures was[|now|].offset + was[|now|].Length() <= |p.heap| && was[|now|].Length() <= off <= |buf|
    {
      NextRecord(p, was, slot, now);
      BufferLeft(p, l, u, Others(now, slot), front, buf, off);
    }
  }

  lemma AgreementExtends(p: Page, was: seq<Slot>, slot: nat, l: Extent, u: Extent, front: Bytestring)
    requires Moving(p, was, slot, p.heap) && |front| + p.used == |p.heap|
    ensures Extends(AgreementOf(p, slot, l, u, front), was, slot, p.heap)
  {
    var agree := AgreementOf(p, slot, l, u, front);
    forall now, buf, off: nat, now', buf', off': nat |
      && |now| < |was| && |now| != slot && agree(now, buf, off)
      && Advances(p.heap, was[|now|], now, buf, off, now', buf', off')
      ensures agree(now', buf', off')
    {
      NextRecord(p, was, slot, now);
      MoveStep(p, slot, l, u, now, front, buf, off, now', buf', off', was[|now|]);
    }
  }

  lemma AgreementSkips(p: Page, slot: nat, l: Extent, u: Extent, front: Bytestring)
    ensures Skips(AgreementOf(p, slot, l, u, front), slot)
  {
    var agree := AgreementOf(p, slot, l, u, front);
    forall now, buf, off: nat, s | |now| == slot && agree(now, buf, off)
      ensures agree(now + [s], buf, off)
    {
      OthersNext(now, slot, s);
    }
  }

  lemma UpdatedParts(a: seq<Slot>, b: seq<Slot>, i: nat, n: nat, s: Slot)
    requires i < n <= |a| && b == a[i := s]
    ensures b[..i + 1] == a[..i] + [s] && b[i + 1..n] == a[i + 1..n] == a[i..n][1..]
  {
  }

  /** The slots `now`, but for `slot`, describe the records copied into `buf` down to `off`. */
  ghost predicate MovedTo(p: Page, lower: Extent, upper: Extent, now: seq<Slot>, slot: nat,
                          front: Bytestring, buf: Bytestring, off: nat) {
    && off <= |buf|
    && Rebuilt(p, Buffered(lower, upper, Others(now, slot), front, buf, off), |Others(now, slot)|)
  }

  /** `p` is the page without the record in `slot` of the directory `was`. */
  ghost predicate Moving(p: Page, was: seq<Slot>, slot: nat, heap: Bytestring) {
    slot < |was| && Layout(p) && p.slots == PageLayout.Remove(was, slot) && p.heap == heap
  }

  /** What is known of the record that slot `from` describes, the next one to copy after `done`. */
  ghost predicate NextIs(p: Page, done: seq<Slot>, from: Slot) {
    && |done| < |p.slots| && p.slots[|done|] == from && from.offset + from.Length() <= |p.heap|
    && from.keyLength == |p.Content()[|done|].key| && from.payloadLength == |p.Content()[|done|].payload|
    && p.heap[from.offset..from.offset + from.Length()] == p.Content()[|done|].key + p.Content()[|done|].payload
  }

  lemma NextRecord(p: Page, was: seq<Slot>, slot: nat, now: seq<Slot>)
    requires Moving(p, was, slot, p.heap) && |now| < |was| && |now| != slot
    ensures NextIs(p, Others(now, slot), was[|now|])
  {
  }

  lemma MoveStep(p: Page, slot: nat, l: Extent, u: Extent, now: seq<Slot>, front: Bytestring,
                 buf: Bytestring, off: nat, now': seq<Slot>, buf': Bytestring, off': nat, from: Slot)
    requires Counted(p) && NextIs(p, Others(now, slot), from) && |now| != slot
    requires MovedTo(p, l, u, now, slot, front, buf, off)
    requires Advances(p.heap, from, now, buf, off, now', buf', off')
    ensures MovedTo(p, l, u, now', slot, front, buf', off')
  {
    var s := from.(offset := |front| + off');
    assert now' == now + [s];
    OthersNext(now, slot, s);
    BufferStep(p, l, u, Others(now, slot), Others(now', slot), front, buf, buf', off, off', s,
               p.heap[from.offset..from.offset + from.Length()]);
  }

  lemma PrefixUnique(a: Bytestring, b: Bytestring, m: nat, n: nat)
    requires CommonPrefix(a, b, m) && CommonPrefix(a, b, n)
    ensures m == n
  {
    assert forall i | 0 <= i < m :: a[i] == a[..m][i] == b[..m][i] == b[i];
    assert forall i | 0 <= i < n :: a[i] == a[..n][i] == b[..n][i] == b[i];
  }

  lemma RemovedEntries(stem: Bytestring, rs: seq<Record>, i: nat)
    requires Ascending(KeysOf(rs)) && i < |rs|
    ensures Ascending(KeysOf(PageLayout.Remove(rs, i)))
    ensures stem + rs[i].key in Entries(stem, rs)
    ensures Entries(stem, PageLayout.Remove(rs, i)) == Entries(stem, rs) - {stem + rs[i].key}
  {
    OrderedOnlyAt(rs, i);
    EntriesRemove(stem, rs, i);
    EntriesAt(stem, rs, i);
    KeysRemove(rs, i);
    AscendingRemove(KeysOf(rs), i);
  }

  /** The page without the record in slot `i`. */
  lemma Dropping(p: Page, n: nat, i: nat) returns (d: Page)
    requires Sound(p, n) && i < |p.slots|
    ensures Sound(d, n) && SameFences(p, d) && d.Content() == PageLayout.Remove(p.Content(), i)
    ensures Moving(d, p.slots, i, p.heap) && d.lower == p.lower && d.upper == p.upper
    ensures p.slots[i].Length() <= p.used <= |p.heap| && d.used == p.used - p.slots[i].Length()
    ensures d.FreeSpaceAfterCompaction() == p.FreeSpaceAfterCompaction() + Weight(p.Content()[i])
  {
    UsedCovers(p, n, i);
    SlotKey(p, n, i);
    d := p.(slots := PageLayout.Remove(p.slots, i), used := p.used - p.slots[i].Length());
    DroppedSound(p, d, n, i);
  }

  lemma UsedCovers(p: Page, n: nat, i: nat)
    requires Sound(p, n) && i < |p.slots|
    ensures p.slots[i].Length() <= p.used
  {
    TotalRemove(p.slots, i);
  }

  lemma StemShape(p: Page, n: nat)
    requires Sound(p, n)
    ensures |Prefix(p, n)| == n
    ensures n > 0 ==> p.lower.offset + n <= |p.heap| && Prefix(p, n) == p.heap[p.lower.offset..p.lower.offset + n]
  {
  }

  /** With fresh hints, searching the stretch they leave is a scan of the whole keys. */
  lemma {:induction false} SearchedFresh(p: Page, n: nat, hint: seq<nat>, key: Bytestring, slot: nat, found: bool)
    requires Sound(p, n) && Ordered(p) && |hint| == 16 && Fresh(hint, SlotHeads(p.slots))
    requires Searched(KeysOf(p.Content()), key, HintRange(hint, ExtractHead(key), |p.slots|), slot, found)
    ensures slot == Scan(FullKeys(Prefix(p, n), p.Content()), Prefix(p, n) + key)
    ensures found <==> Prefix(p, n) + key in FullKeys(Prefix(p, n), p.Content())
  {
    RangeEncloses(hint, KeysOf(p.Content()), key);
    SearchedScan(Prefix(p, n), p.Content(), key, HintRange(hint, ExtractHead(key), |p.slots|), slot, found);
  }

  /** Exactly one of smaller, equal and larger. */
  lemma OneOrder(a: Bytestring, b: Bytestring)
    ensures Less(a, b) ==> !Less(b, a) && a != b
    ensures Less(b, a) ==> !Less(a, b) && a != b
    ensures Less(a, b) || Less(b, a) || a == b
  {
    LessTotal(a, b);
    if Less(a, b) {
      LessAsymmetric(a, b);
    } else if Less(b, a) {
      LessAsymmetric(b, a);
    }
  }

  lemma Narrow(keys: seq<Bytestring>, lo: nat, mid: nat, hi: nat, key: Bytestring)
    requires Ascending(keys) && lo <= mid < hi <= |keys|
    ensures Less(keys[mid], key) ==> AllBelow(keys, lo, mid + 1, key)
    ensures Less(key, keys[mid]) ==> AllAbove(keys, mid, hi, key)
  {
    if Less(keys[mid], key) {
      BelowUpTo(keys, lo, mid, key);
    }
    if Less(key, keys[mid]) {
      AboveFrom(keys, mid, hi, key);
    }
  }

  lemma StartIsProduct(dist: nat, p: nat)
    ensures Start(dist, p) == p * dist
  {
  }

  lemma ResampledAll(hint: seq<nat>, hint': seq<nat>, slots: seq<Slot>, count: nat)
    requires count <= |slots| && Resampled(hint, hint', SlotHeads(slots), Distance(count), 0)
    ensures Fresh(hint', SlotHeads(slots[..count]))
  {
    if count > 32 {
      var d := Distance(count);
      forall i | 0 <= i < 16
        ensures Sample(d, i) < count && hint'[i] == SlotHeads(slots[..count])[Sample(d, i)]
      {
        SampleBound(count, i);
        assert SlotHeads(slots)[Sample(d, i)] == SlotHeads(slots[..count])[Sample(d, i)];
      }
    }
  }
}
