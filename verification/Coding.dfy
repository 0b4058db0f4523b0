// Fixed-width and variable-length integer encodings.
module Coding {
  import opened Bytes

  datatype Option<+T> = None | Some(value: T)

  /** Little-endian, least significant byte first. */
  function EncodeFixed32(v: bv32): (r: Bytestring)
    ensures |r| == 4
  {
    [(v & 0xff) as int, ((v >> 8) & 0xff) as int, ((v >> 16) & 0xff) as int, ((v >> 24) & 0xff) as int]
  }

  function DecodeFixed32(b: Bytestring): bv32
    requires |b| >= 4
  {
    (b[0] as bv32) | ((b[1] as bv32) << 8) | ((b[2] as bv32) << 16) | ((b[3] as bv32) << 24)
  }

  lemma IntBack(v: bv32)
    ensures (v as int) as bv32 == v
  {
  }

  lemma {:induction false} Fixed32RoundTrip(v: bv32, rest: Bytestring)
    ensures DecodeFixed32(EncodeFixed32(v) + rest) == v
  {
    IntBack(v & 0xff);
    IntBack((v >> 8) & 0xff);
    IntBack((v >> 16) & 0xff);
    IntBack((v >> 24) & 0xff);
  }

  /** The place value of the `i`-th 7-bit group. */
  function Weight(i: nat): (w: nat)
    requires i <= 4
    ensures w > 0
  {
    if i == 0 then 1
    else if i == 1 then 128
    else if i == 2 then 16384
    else if i == 3 then 2097152
    else 268435456
  }

  /** A 7-bit group shifted into place; bits past the 32nd are lost. */
  function Placed(group: nat, i: nat): (r: nat)
    requires i <= 4
  {
    (group * Weight(i)) % 0x1_0000_0000
  }

  /** A group byte with its continuation bit set: the low eight bits of `v | 128`. */
  function Continued(v: nat): Byte {
    128 + v % 128
  }

  /** The unrolled varint encoder; `v` fits in 32 bits. */
  function EncodeVarint32(v: nat): (r: Bytestring)
    requires v < 0x1_0000_0000
    ensures 1 <= |r| <= 5
  {
    if v < 128 then [v]
    else if v < 16384 then [Continued(v), v / 128]
    else if v < 2097152 then [Continued(v), Continued(v / 128), v / 16384]
    else if v < 268435456 then
      [Continued(v), Continued(v / 128), Continued(v / 16384), v / 2097152]
    else
      [Continued(v), Continued(v / 128), Continued(v / 16384), Continued(v / 2097152), v / 268435456]
  }

  /**
   * Decodes from group `i` on. Groups occupy disjoint bit ranges, so the
   * accumulating `|=` is an addition; a group shifted past bit 31 is truncated.
   */
  function DecodeVarint32From(b: Bytestring, i: nat, acc: nat): (r: Option<(nat, nat)>)
    ensures r.Some? ==> i < r.value.1 <= |b|
    decreases 5 - i
  {
    if i > 4 || i >= |b| then None
    else if b[i] >= 128 then
      DecodeVarint32From(b, i + 1, acc + Placed(b[i] - 128, i))
    else Some((acc + Placed(b[i], i), i + 1))
  }

  /** The decoded value and the number of bytes it took, or `None`. */
  function DecodeVarint32(b: Bytestring): (r: Option<(nat, nat)>)
    ensures r.Some? ==> 0 < r.value.1 <= |b|
  {
    DecodeVarint32From(b, 0, 0)
  }

  /** The looping decoder, with its one-byte fast path. */
  method GetVarint32(input: Bytestring) returns (ok: bool, value: nat, rest: Bytestring)
    ensures ok == DecodeVarint32(input).Some?
    ensures ok ==> DecodeVarint32(input) == Some((value, |input| - |rest|)) && |rest| <= |input|
    ensures ok ==> rest == input[|input| - |rest|..]
  {
    ok, value, rest := false, 0, input;
    if 0 < |input| && input[0] < 128 {
      return true, input[0], input[1..];
    }
    var i: nat, result: nat := 0, 0;
    while i <= 4 && i < |input|
      invariant 0 <= i <= 5 && i <= |input|
      invariant DecodeVarint32(input) == DecodeVarint32From(input, i, result)
    {
      var b := input[i];
      if b >= 128 {
        result := result + Placed(b - 128, i);
        i := i + 1;
      } else {
        return true, result + Placed(b, i), input[i + 1..];
      }
    }
  }

  /** Of the fifth group only four bits fit in the word. */
  lemma PlacedLast(group: nat)
    ensures Placed(group, 4) == (group % 16) * 268435456
  {
    var q, r := group / 16, group % 16;
    assert group * Weight(4) == q * 0x1_0000_0000 + r * 268435456;
  }

  lemma PlacedExactly(group: nat, i: nat)
    requires i <= 4 && group < 128 && (i < 4 || group < 16)
    ensures Placed(group, i) == group * Weight(i)
  {
    if i == 0 {
    } else if i == 1 {
    } else if i == 2 {
    } else if i == 3 {
    }
  }

  lemma GroupStep(b: Bytestring, i: nat, acc: nat, group: nat)
    requires i <= 4 && i < |b| && group < 128 && b[i] == 128 + group
    requires i < 4 || group < 16
    ensures DecodeVarint32From(b, i, acc) == DecodeVarint32From(b, i + 1, acc + group * Weight(i))
  {
    assert Placed(group, i) == group * Weight(i) by {
      PlacedExactly(group, i);
    }
  }

  lemma GroupEnd(b: Bytestring, i: nat, acc: nat, group: nat)
    requires i <= 4 && i < |b| && group < 128 && b[i] == group
    requires i < 4 || group < 16
    ensures DecodeVarint32From(b, i, acc) == Some((acc + group * Weight(i), i + 1))
  {
    assert Placed(group, i) == group * Weight(i) by {
      PlacedExactly(group, i);
    }
  }

  /** The encoder as a recursion on the remaining groups. */
  function Groups(v: nat): (r: Bytestring)
    ensures |r| >= 1
  {
    if v < 128 then [v] else [Continued(v)] + Groups(v / 128)
  }

  lemma EncodeIsGroups(v: nat)
    requires v < 0x1_0000_0000
    ensures EncodeVarint32(v) == Groups(v)
  {
    var q1 := v / 128;
    var q2 := q1 / 128;
    var q3 := q2 / 128;
    assert v / 16384 == q2 && v / 2097152 == q3 && v / 268435456 == q3 / 128;
    if q1 < 128 {
    } else if q2 < 128 {
      assert Groups(q1) == [Continued(q1), q2];
    } else if q3 < 128 {
      assert Groups(q2) == [Continued(q2), q3];
    } else {
      assert Groups(q3) == [Continued(q3), q3 / 128];
      assert Groups(q2) == [Continued(q2), Continued(q3), q3 / 128];
    }
  }

  lemma SplitGroup(low: nat, high: nat, w: nat)
    ensures (low + 128 * high) * w == low * w + high * (128 * w)
  {
  }

  lemma {:induction false} DecodeGroups(b: Bytestring, i: nat, acc: nat, v: nat)
    requires i <= 4 && v * Weight(i) < 0x1_0000_0000
    requires i + |Groups(v)| <= |b| && b[i..i + |Groups(v)|] == Groups(v)
    ensures DecodeVarint32From(b, i, acc) == Some((acc + v * Weight(i), i + |Groups(v)|))
    decreases v
  {
    var g := b[i..i + |Groups(v)|];
    assert b[i] == g[0];
    if v < 128 {
      GroupEnd(b, i, acc, v);
    } else {
      SplitGroup(v % 128, v / 128, Weight(i));
      assert i < 4 && Weight(i + 1) == 128 * Weight(i);
      GroupStep(b, i, acc, v % 128);
      assert g[1..] == Groups(v / 128) == b[i + 1..i + 1 + |Groups(v / 128)|];
      DecodeGroups(b, i + 1, acc + v % 128 * Weight(i), v / 128);
    }
  }

  /** Decoding an encoded value gives the value back and consumes exactly its encoding. */
  lemma {:induction false} Varint32RoundTrip(v: nat, rest: Bytestring)
    requires v < 0x1_0000_0000
    ensures DecodeVarint32(EncodeVarint32(v) + rest) == Some((v, |EncodeVarint32(v)|))
  {
    EncodeIsGroups(v);
    var b := Groups(v) + rest;
    assert b[0..0 + |Groups(v)|] == Groups(v);
    DecodeGroups(b, 0, 0, v);
  }
}
