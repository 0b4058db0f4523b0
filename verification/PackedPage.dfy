// A slotted page as a sorted map: the order of its keys, their heads, and the entries they stand for.
module PackedPage {
  import opened Bytes
  import opened PageLayout
  import opened PageCompaction
  import opened PageSearch

  function KeysOf(rs: seq<Record>): (keys: seq<Bytestring>)
    ensures |keys| == |rs|
  {
    seq(|rs|, i requires 0 <= i < |rs| => rs[i].key)
  }

  /** `n` is the length of the longest common prefix of `a` and `b`. */
  ghost predicate CommonPrefix(a: Bytestring, b: Bytestring, n: nat) {
    && n <= |a| && n <= |b| && a[..n] == b[..n]
    && (n == |a| || n == |b| || a[n] != b[n])
  }

  /** A page whose layout is consistent, whose heads are those of its keys and whose prefix is that of its fences. */
  ghost predicate Sound(p: Page, prefix: nat) {
    && Layout(p)
    && SlotHeads(p.slots) == Heads(KeysOf(p.Content()))
    && CommonPrefix(p.LowerFence(), p.UpperFence(), prefix)
  }

  /** The two pages have the same fence keys. */
  ghost predicate SameFences(p: Page, q: Page) {
    q.LowerFence() == p.LowerFence() && q.UpperFence() == p.UpperFence()
  }

  ghost predicate Ordered(p: Page) {
    Ascending(KeysOf(p.Content()))
  }

  /** The part of every key that its slot does not store. */
  function Prefix(p: Page, prefix: nat): Bytestring {
    var fence := p.LowerFence();
    if prefix <= |fence| then fence[..prefix] else []
  }

  // ------------------------------------------------------------ heads

  lemma HeadsInsert(slots: seq<Slot>, rs: seq<Record>, i: nat, s: Slot, r: Record)
    requires SlotHeads(slots) == Heads(KeysOf(rs)) && i <= |slots| && s.head == ExtractHead(r.key)
    ensures SlotHeads(Insert(slots, i, s)) == Heads(KeysOf(Insert(rs, i, r)))
  {
    assert SlotHeads(Insert(slots, i, s)) == Insert(SlotHeads(slots), i, s.head);
    assert Heads(KeysOf(Insert(rs, i, r))) == Insert(Heads(KeysOf(rs)), i, ExtractHead(r.key));
  }

  lemma HeadsRemove(slots: seq<Slot>, rs: seq<Record>, i: nat)
    requires SlotHeads(slots) == Heads(KeysOf(rs)) && i < |slots|
    ensures SlotHeads(Remove(slots, i)) == Heads(KeysOf(Remove(rs, i)))
  {
    assert SlotHeads(Remove(slots, i)) == Remove(SlotHeads(slots), i);
    assert Heads(KeysOf(Remove(rs, i))) == Remove(Heads(KeysOf(rs)), i);
  }

  lemma HeadsUpdate(slots: seq<Slot>, rs: seq<Record>, i: nat, s: Slot, r: Record)
    requires SlotHeads(slots) == Heads(KeysOf(rs)) && i < |slots| && s.head == slots[i].head && r.key == rs[i].key
    ensures SlotHeads(slots[i := s]) == SlotHeads(slots)
    ensures KeysOf(rs[i := r]) == KeysOf(rs)
  {
  }

  // ------------------------------------------------------------ steps

  lemma FencesOnlySound(q: Page, n: nat, lower: Bytestring, upper: Bytestring)
    requires FencesOnly(q, lower, upper) && CommonPrefix(lower, upper, n)
    ensures Sound(q, n)
  {
    assert SlotHeads(q.slots) == Heads(KeysOf(q.Content()));
  }

  lemma InsertedSound(p: Page, q: Page, n: nat, i: nat, s: Slot, key: Bytestring, payload: Bytestring)
    requires Sound(p, n) && Inserted(p, q, i, s, key, payload) && s.head == ExtractHead(key)
    requires 10 + s.Length() <= p.FreeSpace()
    ensures Sound(q, n) && SameFences(p, q)
    ensures q.Content() == Insert(p.Content(), i, Record(key, payload))
  {
    InsertedLayout(p, q, i, s, key, payload);
    InsertedFences(p, q, s, key, payload);
    InsertedContent(p, q, i, s, key, payload);
    HeadsInsert(p.slots, p.Content(), i, s, Record(key, payload));
  }

  lemma {:induction false} DroppedSound(p: Page, q: Page, n: nat, i: nat)
    requires Sound(p, n) && Dropped(p, q, i)
    ensures Sound(q, n) && SameFences(p, q)
    ensures q.Content() == Remove(p.Content(), i)
  {
    DroppedLayout(p, q, i);
    HeadsRemove(p.slots, p.Content(), i);
  }

  lemma {:induction false} ShrunkSound(p: Page, q: Page, n: nat, i: nat, payload: Bytestring)
    requires Sound(p, n) && Shrunk(p, q, i, payload)
    ensures Sound(q, n) && SameFences(p, q)
    ensures q.Content() == p.Content()[i := Record(p.Content()[i].key, payload)]
    ensures SlotHeads(q.slots) == SlotHeads(p.slots)
  {
    ShrunkLayout(p, q, i, payload);
    ShrunkFences(p, q, i, payload);
    assert AllBetween(p.slots, 0, |p.heap|);
    ShrunkContent(p, q, i, payload);
    HeadsUpdate(p.slots, p.Content(), i, q.slots[i], q.Content()[i]);
  }

  /** Taking a record out of the heap and storing it again with another payload, in the same slot. */
  lemma {:induction false} ReplacedSound(p: Page, d: Page, q: Page, n: nat, i: nat, s: Slot, key: Bytestring, payload: Bytestring)
    requires Sound(d, n) && Inserted(d, q, i, s, key, payload) && s.head == ExtractHead(key)
    requires 10 + s.Length() <= d.FreeSpace()
    requires |p.slots| == |d.slots| + 1 && i < |p.slots| && d.Content() == Remove(p.Content(), i)
    requires p.Content()[i].key == key
    ensures Sound(q, n) && SameFences(d, q)
    ensures q.Content() == p.Content()[i := Record(key, payload)]
    ensures KeysOf(q.Content()) == KeysOf(p.Content())
  {
    InsertedSound(d, q, n, i, s, key, payload);
    ReinsertedUpdate(p.Content(), i, Record(key, payload));
  }

  lemma ReinsertedUpdate<T>(a: seq<T>, i: nat, x: T)
    requires i < |a|
    ensures Insert(Remove(a, i), i, x) == a[i := x]
  {
  }

  /** A slot's bytes are in the heap and its head is that of its key. */
  lemma SlotKey(p: Page, n: nat, i: nat)
    requires Sound(p, n) && i < |p.slots|
    ensures p.slots[i].offset + p.slots[i].Length() <= |p.heap|
    ensures |p.Content()[i].key| == p.slots[i].keyLength && |p.Content()[i].payload| == p.slots[i].payloadLength
    ensures p.slots[i].head == ExtractHead(p.Content()[i].key)
  {
    assert Between(p.slots[i].Covers(), p.top, |p.heap|);
    assert SlotHeads(p.slots)[i] == Heads(KeysOf(p.Content()))[i];
  }

  /** `q` has the fences and the records of `p` and no gaps. */
  ghost predicate Compacted(p: Page, q: Page, n: nat)
    requires Sound(p, n)
  {
    && Sound(q, n) && SameFences(p, q) && q.Content() == p.Content() && SlotHeads(q.slots) == SlotHeads(p.slots)
    && q.FreeSpace() == p.FreeSpaceAfterCompaction() == q.FreeSpaceAfterCompaction()
  }

  /** Rebuilding keeps the records, their heads and the prefix, and leaves no gaps. */
  lemma RebuiltSound(p: Page, q: Page, n: nat)
    requires Sound(p, n) && Rebuilt(p, q, |p.slots|)
    ensures Compacted(p, q, n)
  {
    RebuildDone(p, q);
  }

  // ------------------------------------------------------------ order

  lemma KeysInsert(rs: seq<Record>, i: nat, r: Record)
    requires i <= |rs|
    ensures KeysOf(Insert(rs, i, r)) == Insert(KeysOf(rs), i, r.key)
  {
  }

  lemma KeysRemove(rs: seq<Record>, i: nat)
    requires i < |rs|
    ensures KeysOf(Remove(rs, i)) == Remove(KeysOf(rs), i)
  {
  }

  lemma AscendingInsert(keys: seq<Bytestring>, i: nat, key: Bytestring)
    requires Ascending(keys) && i <= |keys| && AllBelow(keys, 0, i, key) && AllAbove(keys, i, |keys|, key)
    ensures Ascending(Insert(keys, i, key))
  {
    var r := Insert(keys, i, key);
    forall a, b | 0 <= a < b < |r|
      ensures Less(r[a], r[b])
    {
      var a', b' := if a < i then a else a - 1, if b < i then b else b - 1;
      assert a == i || r[a] == keys[a'];
      assert b == i || r[b] == keys[b'];
    }
  }

  lemma AscendingRemove(keys: seq<Bytestring>, i: nat)
    requires Ascending(keys) && i < |keys|
    ensures Ascending(Remove(keys, i))
  {
    var r := Remove(keys, i);
    forall a, b | 0 <= a < b < |r|
      ensures Less(r[a], r[b])
    {
      var a', b' := if a < i then a else a + 1, if b < i then b else b + 1;
      assert r[a] == keys[a'] && r[b] == keys[b'];
    }
  }

  // ------------------------------------------------------------ entries

  /** The map that the records stand for, with the common prefix put back. */
  function Entries(prefix: Bytestring, rs: seq<Record>): map<Bytestring, Bytestring> {
    if |rs| == 0 then map[]
    else
      var m := |rs| - 1;
      Entries(prefix, rs[..m])[prefix + rs[m].key := rs[m].payload]
  }

  /** The key of a record is not the key of any other. */
  ghost predicate OnlyAt(rs: seq<Record>, i: nat, key: Bytestring) {
    forall j | 0 <= j < |rs| && j != i :: rs[j].key != key
  }

  lemma PrefixInjective(prefix: Bytestring, a: Bytestring, b: Bytestring)
    requires prefix + a == prefix + b
    ensures a == b
  {
    assert a == (prefix + a)[|prefix|..] && b == (prefix + b)[|prefix|..];
  }

  lemma DistinctKeys(prefix: Bytestring, a: Bytestring, b: Bytestring)
    requires a != b
    ensures prefix + a != prefix + b
  {
    if prefix + a == prefix + b {
      PrefixInjective(prefix, a, b);
    }
  }

  lemma {:induction false} EntriesAbsent(prefix: Bytestring, rs: seq<Record>, key: Bytestring)
    requires key !in KeysOf(rs)
    ensures prefix + key !in Entries(prefix, rs)
    decreases |rs|
  {
    if |rs| > 0 {
      var m := |rs| - 1;
      assert KeysOf(rs)[m] == rs[m].key;
      assert forall j | 0 <= j < m :: KeysOf(rs[..m])[j] == KeysOf(rs)[j];
      DistinctKeys(prefix, rs[m].key, key);
      EntriesAbsent(prefix, rs[..m], key);
    }
  }

  lemma {:induction false} EntriesAt(prefix: Bytestring, rs: seq<Record>, i: nat)
    requires i < |rs| && OnlyAt(rs, i, rs[i].key)
    ensures prefix + rs[i].key in Entries(prefix, rs)
    ensures Entries(prefix, rs)[prefix + rs[i].key] == rs[i].payload
    decreases |rs|
  {
    var m := |rs| - 1;
    if i < m {
      DistinctKeys(prefix, rs[m].key, rs[i].key);
      EntriesAt(prefix, rs[..m], i);
    }
  }

  /** Every key of the map starts with the prefix and is stored in a slot. */
  lemma {:induction false} EntriesShape(prefix: Bytestring, rs: seq<Record>, key: Bytestring)
    requires key in Entries(prefix, rs)
    ensures |prefix| <= |key| && key[..|prefix|] == prefix && key[|prefix|..] in KeysOf(rs)
    decreases |rs|
  {
    var m := |rs| - 1;
    if key == prefix + rs[m].key {
      assert KeysOf(rs)[m] == key[|prefix|..];
    } else {
      EntriesShape(prefix, rs[..m], key);
      var j :| 0 <= j < m && KeysOf(rs[..m])[j] == key[|prefix|..];
      assert KeysOf(rs)[j] == key[|prefix|..];
    }
  }

  lemma {:induction false} EntriesInsert(prefix: Bytestring, rs: seq<Record>, i: nat, r: Record)
    requires i <= |rs| && OnlyAt(rs, |rs|, r.key)
    ensures Entries(prefix, Insert(rs, i, r)) == Entries(prefix, rs)[prefix + r.key := r.payload]
    decreases |rs|
  {
    var m := |rs| - 1;
    if i == |rs| {
      assert Insert(rs, i, r)[..|rs|] == rs;
    } else {
      assert Insert(rs, i, r)[..|rs|] == Insert(rs[..m], i, r);
      EntriesInsert(prefix, rs[..m], i, r);
      DistinctKeys(prefix, rs[m].key, r.key);
    }
  }

  lemma {:induction false} EntriesUpdate(prefix: Bytestring, rs: seq<Record>, i: nat, payload: Bytestring)
    requires i < |rs| && OnlyAt(rs, i, rs[i].key)
    ensures Entries(prefix, rs[i := Record(rs[i].key, payload)])
            == Entries(prefix, rs)[prefix + rs[i].key := payload]
    decreases |rs|
  {
    var m := |rs| - 1;
    var r := Record(rs[i].key, payload);
    if i == m {
      assert rs[i := r][..m] == rs[..m];
    } else {
      assert rs[i := r][..m] == rs[..m][i := r];
      EntriesUpdate(prefix, rs[..m], i, payload);
      DistinctKeys(prefix, rs[m].key, r.key);
    }
  }

  lemma {:induction false} EntriesRemoveLast(prefix: Bytestring, rs: seq<Record>)
    requires |rs| > 0 && OnlyAt(rs, |rs| - 1, rs[|rs| - 1].key)
    ensures Entries(prefix, Remove(rs, |rs| - 1)) == Entries(prefix, rs) - {prefix + rs[|rs| - 1].key}
  {
    var m := |rs| - 1;
    assert Remove(rs, m) == rs[..m];
    assert rs[m].key !in KeysOf(rs[..m]);
    EntriesAbsent(prefix, rs[..m], rs[m].key);
  }

  lemma {:induction false} EntriesRemove(prefix: Bytestring, rs: seq<Record>, i: nat)
    requires i < |rs| && OnlyAt(rs, i, rs[i].key)
    ensures Entries(prefix, Remove(rs, i)) == Entries(prefix, rs) - {prefix + rs[i].key}
    decreases |rs|
  {
    var m := |rs| - 1;
    if i == m {
      EntriesRemoveLast(prefix, rs);
    } else {
      assert Remove(rs, i)[..m - 1] == Remove(rs[..m], i);
      EntriesRemove(prefix, rs[..m], i);
      DistinctKeys(prefix, rs[m].key, rs[i].key);
    }
  }

  lemma OrderedOnlyAt(rs: seq<Record>, i: nat)
    requires Ascending(KeysOf(rs)) && i < |rs|
    ensures OnlyAt(rs, i, rs[i].key)
  {
    var keys := KeysOf(rs);
    forall j | 0 <= j < |rs| && j != i
      ensures rs[j].key != rs[i].key
    {
      if j < i {
        LessAsymmetric(keys[j], keys[i]);
      } else {
        LessAsymmetric(keys[i], keys[j]);
      }
    }
  }

  // ------------------------------------------------------------ whole keys

  function FullKeys(prefix: Bytestring, rs: seq<Record>): (keys: seq<Bytestring>)
    ensures |keys| == |rs|
  {
    seq(|rs|, i requires 0 <= i < |rs| => prefix + rs[i].key)
  }

  ghost predicate StartsWith(key: Bytestring, prefix: Bytestring) {
    |prefix| <= |key| && key[..|prefix|] == prefix
  }

  /** A common prefix changes no comparison. */
  lemma LiftAscending(prefix: Bytestring, rs: seq<Record>)
    requires Ascending(KeysOf(rs))
    ensures Ascending(FullKeys(prefix, rs))
  {
    var full := FullKeys(prefix, rs);
    forall i, j | 0 <= i < j < |full|
      ensures Less(full[i], full[j])
    {
      assert Less(KeysOf(rs)[i], KeysOf(rs)[j]);
      LessPrefix(prefix, rs[i].key, rs[j].key);
    }
  }

  lemma LiftBelow(prefix: Bytestring, rs: seq<Record>, hi: nat, key: Bytestring)
    requires AllBelow(KeysOf(rs), 0, hi, key)
    ensures AllBelow(FullKeys(prefix, rs), 0, hi, prefix + key)
  {
    forall j | 0 <= j < hi <= |rs|
      ensures Less(FullKeys(prefix, rs)[j], prefix + key)
    {
      assert Less(KeysOf(rs)[j], key);
      LessPrefix(prefix, rs[j].key, key);
    }
  }

  lemma LiftAbove(prefix: Bytestring, rs: seq<Record>, lo: nat, key: Bytestring)
    requires AllAbove(KeysOf(rs), lo, |rs|, key)
    ensures AllAbove(FullKeys(prefix, rs), lo, |rs|, prefix + key)
  {
    forall j | lo <= j < |rs|
      ensures Less(prefix + key, FullKeys(prefix, rs)[j])
    {
      assert Less(key, KeysOf(rs)[j]);
      LessPrefix(prefix, key, rs[j].key);
    }
  }

  /** A key that compares below the prefix, or is a proper prefix of it, is below every key of the page. */
  lemma {:induction false} BelowPrefix(key: Bytestring, prefix: Bytestring, rest: Bytestring)
    requires MemCmpMin(key, prefix) < 0 || (MemCmpMin(key, prefix) == 0 && |key| < |prefix|)
    ensures Less(key, prefix + rest)
    decreases |key|
  {
    if |key| > 0 {
      var n := MinLength(key, prefix);
      assert key[..n][1..] == key[1..][..n - 1] && prefix[..n][1..] == prefix[1..][..n - 1];
      assert (prefix + rest)[1..] == prefix[1..] + rest;
      if key[0] == prefix[0] {
        BelowPrefix(key[1..], prefix[1..], rest);
      }
    }
  }

  lemma {:induction false} AbovePrefix(key: Bytestring, prefix: Bytestring, rest: Bytestring)
    requires MemCmpMin(key, prefix) > 0
    ensures Less(prefix + rest, key)
    decreases |key|
  {
    var n := MinLength(key, prefix);
    assert key[..n][1..] == key[1..][..n - 1] && prefix[..n][1..] == prefix[1..][..n - 1];
    assert (prefix + rest)[1..] == prefix[1..] + rest;
    if key[0] == prefix[0] {
      AbovePrefix(key[1..], prefix[1..], rest);
    }
  }

  /** An equal comparison with a key that is not shorter means that it starts with the prefix. */
  lemma EqualPrefix(key: Bytestring, prefix: Bytestring)
    ensures StartsWith(key, prefix) <==> MemCmpMin(key, prefix) == 0 && |prefix| <= |key|
  {
    if |prefix| <= |key| {
      assert prefix[..|prefix|] == prefix;
      assert key[..|prefix|][..|prefix|] == key[..|prefix|];
      MemCmpOrder(key[..|prefix|], prefix);
    }
  }

  lemma {:induction false} ScanBelowPrefix(prefix: Bytestring, rs: seq<Record>, key: Bytestring)
    requires MemCmpMin(key, prefix) < 0 || (MemCmpMin(key, prefix) == 0 && |key| < |prefix|)
    ensures Scan(FullKeys(prefix, rs), key) == 0 && key !in FullKeys(prefix, rs)
  {
    forall j | 0 <= j < |rs|
      ensures Less(key, FullKeys(prefix, rs)[j])
    {
      BelowPrefix(key, prefix, rs[j].key);
    }
    ScanMisses(FullKeys(prefix, rs), key, 0);
  }

  lemma ScanAbovePrefix(prefix: Bytestring, rs: seq<Record>, key: Bytestring)
    requires MemCmpMin(key, prefix) > 0
    ensures Scan(FullKeys(prefix, rs), key) == |rs| && key !in FullKeys(prefix, rs)
  {
    forall j | 0 <= j < |rs|
      ensures Less(FullKeys(prefix, rs)[j], key)
    {
      AbovePrefix(key, prefix, rs[j].key);
    }
    ScanMisses(FullKeys(prefix, rs), key, |rs|);
  }

  /** What a search of the stretch `r` for `key` may answer. */
  ghost predicate Searched(keys: seq<Bytestring>, key: Bytestring, r: Range, slot: nat, found: bool) {
    && r.lo <= slot <= r.hi <= |keys|
    && (found ==> slot < r.hi && keys[slot] == key)
    && (!found ==> AllBelow(keys, r.lo, slot, key) && AllAbove(keys, slot, r.hi, key))
  }

  /** A search that the hints have not misled answers like a scan over the whole keys. */
  lemma SearchedScan(prefix: Bytestring, rs: seq<Record>, key: Bytestring, r: Range, slot: nat, found: bool)
    requires Ascending(KeysOf(rs)) && Searched(KeysOf(rs), key, r, slot, found)
    requires AllBelow(KeysOf(rs), 0, r.lo, key) && AllAbove(KeysOf(rs), r.hi, |rs|, key)
    ensures slot == Scan(FullKeys(prefix, rs), prefix + key)
    ensures found <==> prefix + key in FullKeys(prefix, rs)
  {
    var full := FullKeys(prefix, rs);
    if found {
      LiftAscending(prefix, rs);
      assert full[slot] == prefix + key;
      ScanHits(full, prefix + key, slot);
    } else {
      assert AllBelow(KeysOf(rs), 0, slot, key) && AllAbove(KeysOf(rs), slot, |rs|, key);
      LiftBelow(prefix, rs, slot, key);
      LiftAbove(prefix, rs, slot, key);
      ScanMisses(full, prefix + key, slot);
    }
  }

  /** A search that misses says that the key is not in the stretch. */
  lemma SearchedMiss(keys: seq<Bytestring>, key: Bytestring, r: Range, slot: nat)
    requires Searched(keys, key, r, slot, false)
    ensures key !in keys[r.lo..r.hi] && forall j | r.lo <= j < r.hi :: keys[j] != key
  {
    forall j | r.lo <= j < r.hi
      ensures keys[j] != key
    {
      if j < slot {
        LessAsymmetric(keys[j], key);
      } else {
        LessAsymmetric(key, keys[j]);
      }
    }
  }

  /** The key is stored in a slot that its search is not led away from. */
  ghost predicate Visible(prefix: Bytestring, rs: seq<Record>, hint: seq<nat>, key: Bytestring)
    requires |hint| == 16
  {
    exists j :: 0 <= j < |rs| && FullKeys(prefix, rs)[j] == key && InStretch(hint, Heads(KeysOf(rs)), j)
  }

  /** A search finds exactly the visible keys. */
  lemma SearchedVisible(prefix: Bytestring, rs: seq<Record>, hint: seq<nat>, key: Bytestring, slot: nat, found: bool)
    requires |hint| == 16 && Searched(KeysOf(rs), key, HintRange(hint, ExtractHead(key), |rs|), slot, found)
    ensures found <==> Visible(prefix, rs, hint, prefix + key)
  {
    var keys, r := KeysOf(rs), HintRange(hint, ExtractHead(key), |rs|);
    if found {
      assert FullKeys(prefix, rs)[slot] == prefix + key && InStretch(hint, Heads(keys), slot);
    } else {
      SearchedMiss(keys, key, r, slot);
      forall j | 0 <= j < |rs| && FullKeys(prefix, rs)[j] == prefix + key
        ensures !InStretch(hint, Heads(keys), j)
      {
        PrefixInjective(prefix, rs[j].key, key);
      }
    }
  }

  /** After 34 appends of one-byte keys the key 17 is stored and is not visible. */
  lemma {:induction false} AppendedKeyIsHidden(rs: seq<Record>, hint: seq<nat>)
    requires KeysOf(rs) == OneByteKeys(34) && Sampled(hint, Heads(OneByteKeys(33)), Distance(33))
    ensures [17] in Entries([], rs) && !Visible([], rs, hint, [17])
  {
    AppendHidesKey(hint);
    EntriesKeys([], rs, [17]);
    forall j | 0 <= j < 34
      ensures FullKeys([], rs)[j] == [j as Byte]
    {
      assert KeysOf(rs)[j] == OneByteKeys(34)[j];
    }
    assert FullKeys([], rs)[17] == [17];
  }

  lemma ServedVisible(prefix: Bytestring, rs: seq<Record>, hint: seq<nat>, key: Bytestring)
    requires |hint| == 16 && Ascending(KeysOf(rs)) && Serves(hint, Heads(KeysOf(rs))) && key in Entries(prefix, rs)
    ensures Visible(prefix, rs, hint, key)
  {
    EntriesKeys(prefix, rs, key);
    var j :| 0 <= j < |rs| && FullKeys(prefix, rs)[j] == key;
    assert InStretch(hint, Heads(KeysOf(rs)), j);
  }

  /** Only one slot has a given whole key. */
  lemma SameSlot(prefix: Bytestring, rs: seq<Record>, i: nat, j: nat)
    requires Ascending(KeysOf(rs)) && i < |rs| && j < |rs| && FullKeys(prefix, rs)[i] == FullKeys(prefix, rs)[j]
    ensures i == j
  {
    LiftAscending(prefix, rs);
    LessIrreflexive(FullKeys(prefix, rs)[j]);
  }

  lemma VisibleStretch(prefix: Bytestring, rs: seq<Record>, hint: seq<nat>, j: nat)
    requires |hint| == 16 && Ascending(KeysOf(rs)) && j < |rs| && Visible(prefix, rs, hint, FullKeys(prefix, rs)[j])
    ensures InStretch(hint, Heads(KeysOf(rs)), j)
  {
    var full := FullKeys(prefix, rs);
    var i :| 0 <= i < |rs| && full[i] == full[j] && InStretch(hint, Heads(KeysOf(rs)), i);
    SameSlot(prefix, rs, i, j);
  }

  /** All stored keys are visible if and only if the hints mislead no search. */
  lemma AllVisibleIff(prefix: Bytestring, rs: seq<Record>, hint: seq<nat>)
    requires |hint| == 16 && Ascending(KeysOf(rs))
    ensures Serves(hint, Heads(KeysOf(rs))) <==> (forall key | key in Entries(prefix, rs) :: Visible(prefix, rs, hint, key))
  {
    if Serves(hint, Heads(KeysOf(rs))) {
      forall key | key in Entries(prefix, rs)
        ensures Visible(prefix, rs, hint, key)
      {
        ServedVisible(prefix, rs, hint, key);
      }
    }
    if forall key | key in Entries(prefix, rs) :: Visible(prefix, rs, hint, key) {
      forall j | 0 <= j < |rs|
        ensures InStretch(hint, Heads(KeysOf(rs)), j)
      {
        EntriesKeys(prefix, rs, FullKeys(prefix, rs)[j]);
        VisibleStretch(prefix, rs, hint, j);
      }
    }
  }

  /** The keys of the map are the whole keys of the slots. */
  lemma EntriesKeys(prefix: Bytestring, rs: seq<Record>, key: Bytestring)
    requires Ascending(KeysOf(rs))
    ensures key in Entries(prefix, rs) <==> key in FullKeys(prefix, rs)
  {
    if key in Entries(prefix, rs) {
      EntriesShape(prefix, rs, key);
      var j :| 0 <= j < |rs| && KeysOf(rs)[j] == key[|prefix|..];
      assert FullKeys(prefix, rs)[j] == key;
    }
    if key in FullKeys(prefix, rs) {
      var j :| 0 <= j < |rs| && FullKeys(prefix, rs)[j] == key;
      OrderedOnlyAt(rs, j);
      EntriesAt(prefix, rs, j);
    }
  }

  /** Keys between the fences start with their common prefix. */
  lemma {:induction false} FencedPrefix(lower: Bytestring, upper: Bytestring, n: nat, key: Bytestring)
    requires CommonPrefix(lower, upper, n)
    requires (lower == key || Less(lower, key)) && (key == upper || Less(key, upper))
    ensures StartsWith(key, lower[..n])
    decreases n
  {
    if n > 0 {
      assert lower[0] == lower[..n][0] == upper[..n][0] == upper[0];
      assert lower[1..][..n - 1] == lower[..n][1..] && upper[1..][..n - 1] == upper[..n][1..];
      LessIrreflexive(upper);
      FencedPrefix(lower[1..], upper[1..], n - 1, key[1..]);
      assert key[..n] == [key[0]] + key[1..][..n - 1];
    }
  }
}
