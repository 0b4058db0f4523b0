// The checksum field of a log record: how it is stored and how it is checked.
module WalSeal {
  import opened Bytes
  import opened Crc32c
  import opened Coding

  /**
   * `tag(x)` is the stored checksum field of a record whose type and data are
   * `x`; `ok(h, x)` is the reader's test of a stored field `h`. The log format is
   * independent of how the two are computed.
   */
  datatype Seal = Seal(tag: Bytestring -> Bytestring, ok: (Bytestring, Bytestring) -> bool) {
    /** A tag takes four bytes and passes the test of what it was made for. */
    ghost predicate Lawful() {
      forall x :: |tag(x)| == 4 && ok(tag(x), x)
    }

    /** This seal is the masked checksum `crc`, stored little-endian. */
    ghost predicate Implements(crc: Checksum) {
      forall x {:trigger crc.Value(x)} ::
        && tag(x) == EncodeFixed32(Mask(crc.Value(x)))
        && (forall h {:trigger ok(h, x)} | |h| == 4 :: ok(h, x) == (Unmask(DecodeFixed32(h)) == crc.Value(x)))
    }
  }

  function SealOf(crc: Checksum): Seal {
    Seal(x => EncodeFixed32(Mask(crc.Value(x))),
         (h, x) => |h| == 4 && Unmask(DecodeFixed32(h)) == crc.Value(x))
  }

  lemma {:induction false} TagPasses(v: bv32)
    ensures |EncodeFixed32(Mask(v))| == 4 && Unmask(DecodeFixed32(EncodeFixed32(Mask(v)))) == v
  {
    Fixed32RoundTrip(Mask(v), []);
    assert EncodeFixed32(Mask(v)) + [] == EncodeFixed32(Mask(v));
    MaskInverse(v);
  }

  lemma {:induction false} SealOfLawful(crc: Checksum)
    ensures SealOf(crc).Lawful()
  {
    var s := SealOf(crc);
    forall x
      ensures |s.tag(x)| == 4 && s.ok(s.tag(x), x)
    {
      TagPasses(crc.Value(x));
    }
  }

  /** The seal that logs have: the masked CRC32C. */
  function CrcSeal(): Seal {
    SealOf(Crc32c.Crc32c())
  }
}
