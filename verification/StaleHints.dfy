// Keys that appending to a packed map hides from lookups.
module StaleHints {
  import opened Bytes
  import opened PageLayout
  import opened PageSearch
  import opened PackedPage
  import opened PackedMap
  import Coding

  /** A page with the one-byte keys below `n`, appended in order. */
  ghost predicate OneByte(m: PackedMap, n: nat)
    requires n <= 34
    reads m, m.heap, m.slots, m.hint
  {
    && m.Formed() && m.Stem() == [] && KeysOf(m.Records()) == OneByteKeys(n)
    && Refreshable(m.hint[..], SlotHeads(m.slots[..m.count])) && m.FreeSpaceAfterCompaction() >= 11 * (34 - n)
  }

  /** The next key comes after the others. */
  lemma OneByteBeyond(rs: seq<Record>, n: nat)
    requires n < 34 && KeysOf(rs) == OneByteKeys(n)
    ensures Ascending(KeysOf(rs)) && Beyond(rs, [n as Byte]) && (n > 0 ==> !Less([n as Byte], rs[n - 1].key))
  {
    forall i, j | 0 <= i < j < n
      ensures Less(KeysOf(rs)[i], KeysOf(rs)[j])
    {
      assert KeysOf(rs)[i] == [i as Byte] && KeysOf(rs)[j] == [j as Byte];
    }
    if n > 0 {
      assert KeysOf(rs)[n - 1] == [(n - 1) as Byte];
    }
    forall j | 0 <= j < n
      ensures KeysOf(rs)[j] == [j as Byte] && Less(KeysOf(rs)[j], [n as Byte])
    {
    }
  }

  lemma OneByteNext(rs: seq<Record>, rs': seq<Record>, n: nat, room: int, room': int)
    requires n < 34 && KeysOf(rs) == OneByteKeys(n) && Grown(rs, rs', Record([n as Byte], []), room, room')
    ensures KeysOf(rs') == OneByteKeys(n + 1) && room' == room - 11
  {
    assert KeysOf(rs') == KeysOf(rs) + [[n as Byte]];
    assert OneByteKeys(n + 1) == OneByteKeys(n) + [[n as Byte]];
  }

  lemma StillRefreshable(hint: seq<nat>, heads: seq<nat>, heads': seq<nat>)
    requires |hint| == 16 && |heads'| == |heads| + 1 && Appended(hint, heads', heads)
    ensures Refreshable(hint, heads')
  {
  }

  /** Appends the next one-byte key. */
  method AppendOneByte(m: PackedMap, n: nat)
    requires n < 34 && OneByte(m, n)
    modifies m, m.heap, m.slots, m.hint
    ensures OneByte(m, n + 1) && (n > 0 ==> Sampled(m.hint[..], Heads(OneByteKeys(n)), Distance(n)))
  {
    ghost var rs, heads, room := m.Records(), SlotHeads(m.slots[..m.count]), m.FreeSpaceAfterCompaction();
    OneByteBeyond(rs, n);
    var ok := m.Append([n as Byte], [], false, [n as Byte]);
    assert ok;
    OneByteNext(rs, m.Records(), n, room, m.FreeSpaceAfterCompaction());
    StillRefreshable(m.hint[..], heads, SlotHeads(m.slots[..m.count]));
  }

  /** Appends the one-byte keys 0 to 33 to an empty page: the key 17 is there and is not found. */
  method LookupMisses() returns (m: PackedMap, payload: Coding.Option<Bytestring>)
    ensures m.Formed() && [17] in m.Contents() && payload.None?
  {
    m := new PackedMap(4096);
    for n := 0 to 34
      invariant fresh(m) && fresh(m.heap) && fresh(m.slots) && fresh(m.hint) && OneByte(m, n)
      invariant n > 1 ==> Sampled(m.hint[..], Heads(OneByteKeys(n - 1)), Distance(n - 1))
    {
      AppendOneByte(m, n);
    }
    AppendedKeyIsHidden(m.Records(), m.hint[..]);
    payload := m.Get([17]);
  }
}
