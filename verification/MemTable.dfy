// The table of recent writes: every write is kept, and the newest of a key is found first.
module MemTable {
  import opened Bytes
  import opened SkipLevels
  import Skip = SkipList

  datatype WriteType = Write | Delete

  /** A write as the table was told of it, with the sequence number it was given. */
  datatype Entry = Entry(key: Bytestring, value: Bytestring, kind: WriteType, deferred: bool, number: nat)

  const NUMBERS: nat := 0x100_0000_0000_0000
  const TAGS: nat := 0x1_0000_0000_0000_0000

  function TypeBits(t: WriteType): nat {
    match t
    case Write => 0
    case Delete => 1
  }

  /** The sequence number shifted up in 64 bits, above the write type. */
  function Tag(number: nat, t: WriteType): nat {
    (number * 256) % TAGS + TypeBits(t)
  }

  function TypeOf(tag: nat): WriteType {
    if tag % 256 == 0 then Write else Delete
  }

  lemma TagParts(number: nat, t: WriteType)
    requires number < NUMBERS
    ensures Tag(number, t) == number * 256 + TypeBits(t) && TypeOf(Tag(number, t)) == t
    ensures TypeBits(t) == if t.Write? then 0 else 1
    ensures Tag(number, t) < TAGS - 1
  {
    assert number * 256 < TAGS;
  }

  function Rec(e: Entry): Item {
    Item(e.key, Tag(e.number, e.kind), e.value)
  }

  // ------------------------------------------------------------ what the list holds

  /** The list holds what was written; of writes with the same key and tag, the first. */
  ghost predicate Represents(s: seq<Item>, h: seq<Item>) {
    && (forall i | 0 <= i < |h| :: Skip.Holds(s, h[i]))
    && (forall j | 0 <= j < |s| :: HasFirst(h, s[j]))
  }

  ghost predicate HasFirst(h: seq<Item>, x: Item) {
    exists i: nat :: IsFirst(h, i, x)
  }

  ghost predicate IsFirst(h: seq<Item>, i: nat, x: Item) {
    i < |h| && h[i] == x && (forall j | 0 <= j < i :: !Same(h[j], x))
  }

  lemma FirstStays(h: seq<Item>, x: Item, i: nat, y: Item)
    requires IsFirst(h, i, y)
    ensures IsFirst(h + [x], i, y)
  {
    assert forall j | 0 <= j < |h| :: (h + [x])[j] == h[j];
  }

  lemma PlacedHas(s: seq<Item>, x: Item, s': seq<Item>, y: Item)
    requires Skip.PlacedIn(s, x, s')
    ensures y in s' <==> y in s || y == x
  {
    var p :| 0 <= p <= |s| && s' == s[..p] + [x] + s[p..];
    assert s == s[..p] + s[p..];
  }

  lemma HoldsIn(s: seq<Item>, s': seq<Item>, x: Item)
    requires Skip.Holds(s, x) && forall y | y in s :: y in s'
    ensures Skip.Holds(s', x)
  {
    var i :| 0 <= i < |s| && Same(s[i], x);
    assert s[i] in s';
    var j :| 0 <= j < |s'| && s'[j] == s[i];
  }

  /** What the list holds after an insertion, whether or not it found a record with the key and tag. */
  lemma {:induction false} RepresentsAdd(s: seq<Item>, s': seq<Item>, h: seq<Item>, x: Item)
    requires Represents(s, h)
    requires if Skip.Holds(s, x) then s' == s else Skip.PlacedIn(s, x, s')
    ensures Represents(s', h + [x])
  {
    var h' := h + [x];
    if !Skip.Holds(s, x) {
      forall y
        ensures y in s' <==> y in s || y == x
      {
        PlacedHas(s, x, s', y);
      }
      HoldsItself(s', x);
    }
    forall i | 0 <= i < |h'|
      ensures Skip.Holds(s', h'[i])
    {
      if i < |h| {
        assert h'[i] == h[i];
        HoldsIn(s, s', h[i]);
      }
    }
    forall j | 0 <= j < |s'|
      ensures HasFirst(h', s'[j])
    {
      assert s'[j] in s';
      if s'[j] in s {
        FirstInKept(s, h, x, s'[j]);
      } else {
        AddedIsFirst(s, h, x);
      }
    }
  }

  lemma HoldsItself(s: seq<Item>, x: Item)
    requires x in s
    ensures Skip.Holds(s, x)
  {
    var i :| 0 <= i < |s| && s[i] == x;
    assert Same(s[i], x);
  }

  lemma FirstInKept(s: seq<Item>, h: seq<Item>, x: Item, y: Item)
    requires Represents(s, h) && y in s
    ensures HasFirst(h + [x], y)
  {
    var j :| 0 <= j < |s| && s[j] == y;
    var i: nat :| IsFirst(h, i, s[j]);
    FirstStays(h, x, i, y);
  }

  lemma AddedIsFirst(s: seq<Item>, h: seq<Item>, x: Item)
    requires Represents(s, h) && !Skip.Holds(s, x)
    ensures IsFirst(h + [x], |h|, x)
  {
    var h' := h + [x];
    forall j | 0 <= j < |h|
      ensures !Same(h'[j], x)
    {
      assert h'[j] == h[j];
      var i :| 0 <= i < |s| && Same(s[i], h[j]);
      assert !Same(s[i], x);
    }
  }

  // ------------------------------------------------------------ reading

  /** Of the entries of a key, the one with the highest tag, and the earliest such. */
  ghost predicate IsNewest(h: seq<Item>, k: Bytestring, i: nat) {
    && i < |h| && h[i].key == k
    && (forall j | 0 <= j < |h| && h[j].key == k :: h[j].tag < h[i].tag || (h[j].tag == h[i].tag && i <= j))
  }

  /** An entry added last is the newest of its key exactly if its tag is above that of the newest before. */
  lemma AddedIsNewest(h: seq<Item>, x: Item, i: nat)
    requires IsNewest(h, x.key, i)
    ensures IsNewest(h + [x], x.key, |h|) <==> x.tag > h[i].tag
    ensures IsNewest(h + [x], x.key, i) <==> x.tag <= h[i].tag
  {
    var h' := h + [x];
    assert h'[|h|] == x && forall j | 0 <= j < |h| :: h'[j] == h[j];
  }

  /** The records from `p` on do not begin in the middle of a key. */
  ghost predicate StartsKey(s: seq<Item>, p: nat) {
    p <= |s| && (0 < p < |s| ==> s[p - 1].key != s[p].key)
  }

  /** The records of a stretch have the key. */
  ghost predicate AllOf(s: seq<Item>, p: nat, q: nat, k: Bytestring) {
    q <= |s| && forall i | p <= i < q :: s[i].key == k
  }

  /** The record a key starts with is that of its newest entry. */
  lemma {:induction false} StartIsNewest(s: seq<Item>, h: seq<Item>, p: nat) returns (i: nat)
    requires Skip.SortedItems(s) && Represents(s, h) && p < |s| && StartsKey(s, p)
    ensures IsNewest(h, s[p].key, i) && h[i] == s[p]
  {
    var k := s[p].key;
    i :| IsFirst(h, i, s[p]);
    forall j | 0 <= j < |h| && h[j].key == k
      ensures h[j].tag < h[i].tag || (h[j].tag == h[i].tag && i <= j)
    {
      assert Skip.Holds(s, h[j]);
      var q :| 0 <= q < |s| && Same(s[q], h[j]);
      StartsBefore(s, p, q);
    }
  }

  /** What lies between two records of a key is a record of it. */
  lemma BetweenSameKey(a: Item, b: Item, c: Item)
    requires Before(a, b) && Before(b, c) && a.key == c.key
    ensures b.key == a.key
  {
    if Less(a.key, b.key) {
      LessAsymmetric(a.key, b.key);
    }
  }

  /** No record of a key comes before the one it starts with. */
  lemma StartsBefore(s: seq<Item>, p: nat, q: nat)
    requires Skip.SortedItems(s) && p < |s| && StartsKey(s, p) && q < |s| && s[q].key == s[p].key
    ensures p <= q && s[q].tag <= s[p].tag && (s[q].tag == s[p].tag ==> q == p)
  {
    LessIrreflexive(s[p].key);
    if q < p - 1 {
      BetweenSameKey(s[q], s[p - 1], s[p]);
    }
  }

  /** The place of the highest tag of a key is where the key starts, if it is there at all. */
  lemma SeekStarts(s: seq<Item>, k: Bytestring, p: nat)
    requires Skip.SortedItems(s) && p <= |s| && (forall i | 0 <= i < |s| :: s[i].tag < TAGS - 1)
    requires forall i | 0 <= i < p :: Before(s[i], Probe(k))
    requires forall i | p <= i < |s| :: !Before(s[i], Probe(k))
    ensures StartsKey(s, p)
    ensures forall q | 0 <= q < |s| && s[q].key == k :: p <= q && s[p].key == k
  {
    LessIrreflexive(k);
    if 0 < p < |s| {
      assert Less(s[p - 1].key, k);
    }
    forall q | 0 <= q < |s| && s[q].key == k
      ensures p <= q && s[p].key == k
    {
      if p < q {
        NotBelow(s[p], s[q], k);
      }
    }
  }

  function Probe(k: Bytestring): Item {
    Item(k, TAGS - 1, [])
  }

  lemma NotBelow(a: Item, b: Item, k: Bytestring)
    requires Before(a, b) && b.key == k && !Less(a.key, k)
    ensures a.key == k
  {
  }

  /** What bounds the tags written bounds those in the list. */
  lemma HeldBounded(s: seq<Item>, h: seq<Item>, bound: nat)
    requires Represents(s, h) && forall i | 0 <= i < |h| :: h[i].tag < bound
    ensures forall j | 0 <= j < |s| :: s[j].tag < bound
  {
    forall j | 0 <= j < |s|
      ensures s[j].tag < bound
    {
      var i: nat :| IsFirst(h, i, s[j]);
    }
  }

  /** An entry of a key has a record of it, and a record an entry. */
  lemma EntryHasRecord(s: seq<Item>, h: seq<Item>, j: nat) returns (q: nat)
    requires Represents(s, h) && j < |h|
    ensures q < |s| && s[q].key == h[j].key
  {
    assert Skip.Holds(s, h[j]);
    q :| 0 <= q < |s| && Same(s[q], h[j]);
  }

  lemma NoEntry(s: seq<Item>, h: seq<Item>, k: Bytestring)
    requires Represents(s, h) && forall q | 0 <= q < |s| :: s[q].key != k
    ensures forall j | 0 <= j < |h| :: h[j].key != k
  {
    forall j | 0 <= j < |h|
      ensures h[j].key != k
    {
      var q := EntryHasRecord(s, h, j);
    }
  }

  // ------------------------------------------------------------ what was written

  /** The records of the entries. */
  ghost function Recs(h: seq<Entry>): (r: seq<Item>)
    ensures |r| == |h| && forall i | 0 <= i < |h| :: r[i] == Rec(h[i])
  {
    seq(|h|, i requires 0 <= i < |h| => Rec(h[i]))
  }

  /** Sequence numbers of writes ascend above the granularity; those of deferred ones are not above it. */
  ghost predicate Numbered(h: seq<Entry>, granularity: nat, next: nat) {
    && granularity < next <= NUMBERS
    && (forall i | 0 <= i < |h| :: if h[i].deferred then h[i].number <= granularity else granularity < h[i].number < next)
    && (forall i, j | 0 <= i < j < |h| && !h[i].deferred && !h[j].deferred :: h[i].number < h[j].number)
  }

  /** The last entry of a key that was not deferred. */
  ghost predicate IsLastWrite(h: seq<Entry>, k: Bytestring, i: nat) {
    && i < |h| && h[i].key == k && !h[i].deferred
    && (forall j | i < j < |h| && h[j].key == k :: h[j].deferred)
  }

  lemma TagOrder(a: Entry, b: Entry)
    requires a.number < b.number < NUMBERS
    ensures Rec(a).tag < Rec(b).tag
  {
    TagParts(a.number, a.kind);
    TagParts(b.number, b.kind);
  }

  /** The last write of a key is its newest entry, whatever was deferred before or after it. */
  lemma LastWriteIsNewest(h: seq<Entry>, granularity: nat, next: nat, k: Bytestring, i: nat)
    requires Numbered(h, granularity, next) && IsLastWrite(h, k, i)
    ensures IsNewest(Recs(h), k, i)
  {
    forall j | 0 <= j < |h| && h[j].key == k && j != i
      ensures Rec(h[j]).tag < Rec(h[i]).tag
    {
      assert h[j].number < h[i].number;
      TagOrder(h[j], h[i]);
    }
  }

  /** The newest entry is the last write, if the key was written at all. */
  lemma {:induction false} NewestIsLastWrite(h: seq<Entry>, granularity: nat, next: nat, k: Bytestring, i: nat, j: nat)
    requires Numbered(h, granularity, next) && IsNewest(Recs(h), k, i)
    requires j < |h| && h[j].key == k && !h[j].deferred
    ensures IsLastWrite(h, k, i)
  {
    if h[i].deferred {
      TagOrder(h[i], h[j]);
    } else {
      forall m | i < m < |h| && h[m].key == k
        ensures h[m].deferred
      {
        if !h[m].deferred {
          TagOrder(h[i], h[m]);
        }
      }
    }
  }

  /** A deferred entry replaces one that was deferred before with a lower number. */
  lemma DeferredCanReplace()
    ensures var k := [1];
            var h := [Entry(k, [], Write, true, 0), Entry(k, [2], Write, true, 1)];
            Numbered(h, 1, 2) && IsNewest(Recs(h[..1]), k, 0) && !IsNewest(Recs(h), k, 0) && IsNewest(Recs(h), k, 1)
  {
    var k := [1];
    var h := [Entry(k, [], Write, true, 0), Entry(k, [2], Write, true, 1)];
    TagParts(0, Write);
    TagParts(1, Write);
    assert Rec(h[0]).tag == 0 && Rec(h[1]).tag == 256;
    assert IsNewest(Recs(h[..1]), k, 0);
    assert IsNewest(Recs(h), k, 1);
  }

  /** A deferred entry leaves what is read of its key, unless that is deferred itself with a lower tag. */
  lemma DeferredKeeps(h: seq<Entry>, granularity: nat, next: nat, e: Entry, i: nat)
    requires Numbered(h, granularity, next) && e.deferred && e.number <= granularity && IsNewest(Recs(h), e.key, i)
    ensures IsNewest(Recs(h + [e]), e.key, i) <==> !(h[i].deferred && Rec(h[i]).tag < Rec(e).tag)
  {
    assert Recs(h + [e]) == Recs(h) + [Rec(e)];
    AddedIsNewest(Recs(h), Rec(e), i);
    if !h[i].deferred {
      TagOrder(e, h[i]);
    }
  }

  lemma TagsBounded(h: seq<Entry>, granularity: nat, next: nat)
    requires Numbered(h, granularity, next)
    ensures forall i | 0 <= i < |h| :: Recs(h)[i].tag < TAGS - 1
  {
    forall i | 0 <= i < |h|
      ensures Recs(h)[i].tag < TAGS - 1
    {
      TagParts(h[i].number, h[i].kind);
    }
  }

  ghost predicate Written(h: seq<Entry>, k: Bytestring) {
    exists j :: 0 <= j < |h| && h[j].key == k
  }

  /** A write of the key was not put back from an earlier table. */
  ghost predicate WrittenHere(h: seq<Entry>, k: Bytestring) {
    exists j :: 0 <= j < |h| && h[j].key == k && !h[j].deferred
  }

  lemma {:induction false} GenuineIsLast(h: seq<Entry>, granularity: nat, next: nat, k: Bytestring, i: nat)
    requires Numbered(h, granularity, next) && IsNewest(Recs(h), k, i)
    ensures WrittenHere(h, k) ==> IsLastWrite(h, k, i)
  {
    if j :| 0 <= j < |h| && h[j].key == k && !h[j].deferred {
      NewestIsLastWrite(h, granularity, next, k, i, j);
    }
  }

  lemma NotWritten(s: seq<Item>, h: seq<Entry>, k: Bytestring)
    requires Represents(s, Recs(h)) && forall q | 0 <= q < |s| :: s[q].key != k
    ensures !Written(h, k) && !WrittenHere(h, k)
  {
    NoEntry(s, Recs(h), k);
    forall j | 0 <= j < |h|
      ensures h[j].key != k
    {
      assert Recs(h)[j].key != k;
    }
  }

  /** The record a key starts with says what its newest entry was. */
  lemma {:induction false} ReadIsNewest(s: seq<Item>, h: seq<Entry>, granularity: nat, next: nat, p: nat) returns (i: nat)
    requires Skip.SortedItems(s) && Represents(s, Recs(h)) && p < |s| && StartsKey(s, p) && Numbered(h, granularity, next)
    ensures IsNewest(Recs(h), s[p].key, i) && Written(h, s[p].key)
    ensures TypeOf(s[p].tag) == h[i].kind && s[p].value == h[i].value
  {
    i := StartIsNewest(s, Recs(h), p);
    TagParts(h[i].number, h[i].kind);
  }

  lemma RecsAdd(h: seq<Entry>, e: Entry)
    ensures Recs(h + [e]) == Recs(h) + [Rec(e)]
  {
  }

  /** A new entry is numbered like the others. */
  lemma NumberedAdd(h: seq<Entry>, granularity: nat, next: nat, next': nat, e: Entry)
    requires Numbered(h, granularity, next) && next <= next' <= NUMBERS
    requires if e.deferred then e.number <= granularity else e.number == next < next'
    ensures Numbered(h + [e], granularity, next')
  {
  }

  function Min(a: nat, b: nat): nat {
    if a < b then a else b
  }

  // ------------------------------------------------------------ the table

  class MemTable {
    const table: Skip.SkipList
    const granularity: nat
    var nextNumber: nat
    var hasEntries: bool
    ghost var history: seq<Entry>

    ghost predicate Valid()
      reads this, table
    {
      && table.Valid() && Numbered(history, granularity, nextNumber)
      && Represents(table.Contents(), Recs(history)) && hasEntries == (history != [])
    }

    constructor (deferral: nat, height: nat)
      requires deferral + 1 <= NUMBERS && height > 0
      ensures Valid() && fresh(table) && history == [] && granularity == deferral && |table.levels| == height
    {
      table := new Skip.SkipList(height);
      granularity, nextNumber, hasEntries, history := deferral, deferral + 1, false, [];
    }

    /** Adds a write, or puts a deferred one back below all writes of this table. */
    method Add(key: Bytestring, value: Bytestring, kind: WriteType, deferred: bool, injected: nat, height: nat)
      requires Valid() && 1 <= height <= |table.levels| && (!deferred ==> nextNumber < NUMBERS)
      modifies this, table
      ensures Valid() && |table.levels| == |old(table.levels)|
      ensures history == old(history) + [Entry(key, value, kind, deferred,
                                               if deferred then Min(injected, granularity) else old(nextNumber))]
    {
      var number := nextNumber;
      if !deferred {
        nextNumber := nextNumber + 1;
      } else if injected > granularity {
        number := granularity;
      } else {
        number := injected;
      }
      ghost var e := Entry(key, value, kind, deferred, number);
      NumberedAdd(history, granularity, old(nextNumber), nextNumber, e);
      Store(Item(key, Tag(number, kind), value), height, e);
    }

    /** Puts the record of a numbered entry into the list. */
    method Store(x: Item, height: nat, ghost e: Entry)
      requires table.Valid() && Represents(table.Contents(), Recs(history)) && 1 <= height <= |table.levels|
      requires Numbered(history + [e], granularity, nextNumber) && x == Rec(e)
      modifies this`history, this`hasEntries, table
      ensures Valid() && |table.levels| == |old(table.levels)| && history == old(history) + [e]
    {
      ghost var before := table.Contents();
      var ok := table.Insert(x, height);
      RepresentsAdd(before, table.Contents(), Recs(history), x);
      RecsAdd(history, e);
      history, hasEntries := history + [e], true;
    }

    /** The first record of the key, or the first after where it would be. */
    method Seek(key: Bytestring) returns (at: Ref, ghost p: nat)
      requires Valid()
      ensures at == At(table.levels[0], p) && StartsKey(table.Contents(), p)
      ensures forall q | 0 <= q < |table.Contents()| && table.Contents()[q].key == key :: p <= q && table.Contents()[p].key == key
    {
      at, p := table.FindGreaterOrEqual(Probe(key));
      ghost var s := table.Contents();
      TagsBounded(history, granularity, nextNumber);
      HeldBounded(s, Recs(history), TAGS - 1);
      SeekStarts(s, key, p);
    }

    /** Moves to where the next key starts. */
    method Next(at: Ref, ghost p: nat) returns (at': Ref, ghost p': nat)
      requires table.Valid() && p < |table.Contents()| && at == At(table.levels[0], p)
      ensures at' == At(table.levels[0], p') && p < p' && StartsKey(table.Contents(), p')
      ensures AllOf(table.Contents(), p, p', table.Contents()[p].key)
    {
      ghost var s := table.Contents();
      var key := table.ItemAt(at, p).key;
      at', p' := at, p;
      while true
        invariant p <= p' < |s| && at' == At(table.levels[0], p')
        invariant AllOf(s, p, p' + 1, key)
        decreases |s| - p'
      {
        var more;
        at', more := Forward(at', p', key);
        p' := p' + 1;
        if !more {
          return;
        }
      }
    }

    /** Moves to the next record, and says whether it has the key too. */
    method Forward(at: Ref, ghost p: nat, key: Bytestring) returns (next: Ref, more: bool)
      requires table.Valid() && p < |table.Contents()| && at == At(table.levels[0], p)
      ensures next == At(table.levels[0], p + 1)
      ensures more <==> p + 1 < |table.Contents()| && table.Contents()[p + 1].key == key
    {
      next := table.Step(at, p);
      more := next != Nil && table.ItemAt(next, p + 1).key == key;
    }

    /** Finds the newest entry of a key. */
    method Get(key: Bytestring) returns (found: bool, kind: WriteType, value: Bytestring, ghost i: nat)
      requires Valid()
      ensures found <==> Written(history, key)
      ensures found ==> IsNewest(Recs(history), key, i) && kind == history[i].kind && value == history[i].value
      ensures WrittenHere(history, key) ==> found && IsLastWrite(history, key, i)
    {
      var at, p := Seek(key);
      ghost var s := table.Contents();
      if at == Nil || table.ItemAt(at, p).key != key {
        NotWritten(s, history, key);
        return false, Write, [], 0;
      }
      i := ReadIsNewest(s, history, granularity, nextNumber, p);
      GenuineIsLast(history, granularity, nextNumber, key, i);
      var x := table.ItemAt(at, p);
      return true, TypeOf(x.tag), x.value, i;
    }
  }
}
