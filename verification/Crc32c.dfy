// CRC32C (section 12.1 of RFC 3720) and the masking applied to stored checksums.
module Crc32c {
  import opened Bytes

  /**
   * A checksum algorithm given by its streaming operation: `extend(c, d)` is the
   * checksum of a string whose checksum was `c`, followed by `d`.
   */
  datatype Checksum = Checksum(extend: (bv32, Bytestring) -> bv32) {
    function Value(data: Bytestring): bv32 {
      extend(0, data)
    }

    /** Extending the checksum of `a` by `b` gives the checksum of `a + b`. */
    ghost predicate Lawful() {
      forall a, b {:trigger extend(Value(a), b)} :: extend(Value(a), b) == Value(a + b)
    }
  }

  /** Left fold over a byte string. */
  function Fold(step: (bv32, Byte) -> bv32, state: bv32, data: Bytestring): bv32
    decreases |data|
  {
    if data == [] then state else Fold(step, step(state, data[0]), data[1..])
  }

  lemma {:induction false} FoldConcat(step: (bv32, Byte) -> bv32, state: bv32, a: Bytestring, b: Bytestring)
    ensures Fold(step, state, a + b) == Fold(step, Fold(step, state, a), b)
    decreases |a|
  {
    if a == [] {
      assert a + b == b;
    } else {
      assert (a + b)[1..] == a[1..] + b;
      FoldConcat(step, step(state, a[0]), a[1..], b);
    }
  }

  function Invert(x: bv32): bv32 {
    x ^ 0xffffffff
  }

  /** A byte-at-a-time checksum whose register is inverted before and after. */
  function Inverted(step: (bv32, Byte) -> bv32, crc: bv32, data: Bytestring): bv32 {
    Invert(Fold(step, Invert(crc), data))
  }

  lemma InvertedConcat(step: (bv32, Byte) -> bv32, crc: bv32, a: Bytestring, b: Bytestring)
    ensures Inverted(step, Inverted(step, crc, a), b) == Inverted(step, crc, a + b)
  {
    FoldConcat(step, Invert(crc), a, b);
  }

  function InvertedFold(step: (bv32, Byte) -> bv32): Checksum {
    Checksum((crc: bv32, data: Bytestring) => Inverted(step, crc, data))
  }

  lemma InvertedFoldLawful(step: (bv32, Byte) -> bv32)
    ensures InvertedFold(step).Lawful()
  {
    var c := InvertedFold(step);
    forall a, b
      ensures c.extend(c.Value(a), b) == c.Value(a + b)
    {
      InvertedConcat(step, 0, a, b);
    }
  }

  const POLYNOMIAL: bv32 := 0x82f63b78

  /** Feeds `n` bits through the reflected polynomial division. */
  function ShiftBits(x: bv32, n: nat): bv32
    decreases n
  {
    if n == 0 then x
    else ShiftBits(if x & 1 == 1 then (x >> 1) ^ POLYNOMIAL else x >> 1, n - 1)
  }

  /** Feeds one byte. */
  function StepByte(state: bv32, b: Byte): bv32 {
    ShiftBits(state ^ (b as bv32), 8)
  }

  function Crc32c(): Checksum {
    InvertedFold(StepByte)
  }

  lemma {:induction false} Crc32cLawful()
    ensures Crc32c().Lawful()
  {
    InvertedFoldLawful(StepByte);
  }

  const MASK_DELTA: bv32 := 0xa282ead8

  /** Rotate right by 15 bits and add a constant, modulo 2^32. */
  function Mask(crc: bv32): bv32 {
    ((crc >> 15) | (crc << 17)) + MASK_DELTA
  }

  function Unmask(masked: bv32): bv32 {
    var rot := masked - MASK_DELTA;
    (rot >> 17) | (rot << 15)
  }

  /** Masking is a bijection on checksums and `Unmask` is its inverse. */
  lemma MaskInverse(x: bv32)
    ensures Unmask(Mask(x)) == x
    ensures Mask(Unmask(x)) == x
  {
  }
}
