// Byte strings and their lexicographic order.
module Bytes {

  type Byte = x: int | 0 <= x < 256

  type Bytestring = seq<Byte>

  /** A zero fill. */
  function Zeros(n: nat): (r: Bytestring)
    ensures |r| == n
  {
    seq(n, _ => 0)
  }

  /** Strict lexicographic order on byte strings; a proper prefix comes first. */
  predicate Less(a: Bytestring, b: Bytestring)
    decreases |a|
  {
    if |b| == 0 then false
    else if |a| == 0 then true
    else a[0] < b[0] || (a[0] == b[0] && Less(a[1..], b[1..]))
  }

  lemma {:induction false} LessIrreflexive(a: Bytestring)
    ensures !Less(a, a)
    decreases |a|
  {
    if |a| > 0 {
      LessIrreflexive(a[1..]);
    }
  }

  lemma {:induction false} LessTransitive(a: Bytestring, b: Bytestring, c: Bytestring)
    requires Less(a, b) && Less(b, c)
    ensures Less(a, c)
    decreases |a|
  {
    if |a| > 0 && a[0] == b[0] == c[0] {
      LessTransitive(a[1..], b[1..], c[1..]);
    }
  }

  lemma {:induction false} LessTotal(a: Bytestring, b: Bytestring)
    ensures Less(a, b) || Less(b, a) || a == b
    decreases |a|
  {
    if |a| > 0 && |b| > 0 && a[0] == b[0] {
      LessTotal(a[1..], b[1..]);
      assert a == [a[0]] + a[1..] && b == [b[0]] + b[1..];
    }
  }

  lemma LessAsymmetric(a: Bytestring, b: Bytestring)
    requires Less(a, b)
    ensures !Less(b, a) && a != b
  {
    LessIrreflexive(a);
    if Less(b, a) {
      LessTransitive(a, b, a);
    }
  }

  /** A common prefix does not matter. */
  lemma {:induction false} LessPrefix(p: Bytestring, a: Bytestring, b: Bytestring)
    ensures Less(p + a, p + b) == Less(a, b)
    decreases |p|
  {
    if |p| == 0 {
      assert p + a == a && p + b == b;
    } else {
      assert (p + a)[1..] == p[1..] + a && (p + b)[1..] == p[1..] + b;
      LessPrefix(p[1..], a, b);
    }
  }

  /** The sign of the first difference of two strings of the same length. */
  function MemCmp(a: Bytestring, b: Bytestring): int
    requires |a| == |b|
    decreases |a|
  {
    if |a| == 0 then 0
    else if a[0] != b[0] then (a[0] as int) - (b[0] as int)
    else MemCmp(a[1..], b[1..])
  }

  function MinLength(a: Bytestring, b: Bytestring): nat {
    if |a| < |b| then |a| else |b|
  }

  /** `memcmp` over the shorter length. */
  function MemCmpMin(a: Bytestring, b: Bytestring): int {
    MemCmp(a[..MinLength(a, b)], b[..MinLength(a, b)])
  }

  /** Comparing the common part and then the lengths decides the lexicographic order. */
  lemma {:induction false} MemCmpOrder(a: Bytestring, b: Bytestring)
    ensures Less(a, b) <==> MemCmpMin(a, b) < 0 || (MemCmpMin(a, b) == 0 && |a| < |b|)
    ensures a == b <==> MemCmpMin(a, b) == 0 && |a| == |b|
    decreases |a|
  {
    if |a| > 0 && |b| > 0 {
      var n := MinLength(a, b);
      assert a[..n][1..] == a[1..][..n - 1] && b[..n][1..] == b[1..][..n - 1];
      MemCmpOrder(a[1..], b[1..]);
      assert a == [a[0]] + a[1..] && b == [b[0]] + b[1..];
    }
  }

  /** How `a` comes before `b`: at position `p` it ends or has the smaller byte. */
  lemma {:induction false} FirstDifference(a: Bytestring, b: Bytestring) returns (p: nat)
    requires Less(a, b)
    ensures p <= |a| && p < |b| && a[..p] == b[..p]
    ensures p == |a| || a[p] < b[p]
    decreases |a|
  {
    if |a| == 0 || a[0] < b[0] {
      p := 0;
    } else {
      var q := FirstDifference(a[1..], b[1..]);
      p := q + 1;
      assert a[..p] == [a[0]] + a[1..][..q] && b[..p] == [b[0]] + b[1..][..q];
    }
  }

  /** Byte `i` of a string padded with zeros. */
  function ByteAt(a: Bytestring, i: nat): Byte {
    if i < |a| then a[i] else 0
  }

  /** The first four bytes as a big-endian number, as the source extracts them length by length. */
  function ExtractHead(key: Bytestring): (h: nat) {
    if |key| == 0 then 0
    else if |key| == 1 then (key[0] as int) * 0x1_00_00_00
    else if |key| == 2 then (key[0] as int) * 0x1_00_00_00 + (key[1] as int) * 0x1_00_00
    else if |key| == 3 then (key[0] as int) * 0x1_00_00_00 + (key[1] as int) * 0x1_00_00 + (key[2] as int) * 0x1_00
    else (key[0] as int) * 0x1_00_00_00 + (key[1] as int) * 0x1_00_00 + (key[2] as int) * 0x1_00 + (key[3] as int)
  }

  /** Short keys are filled up with zeros. */
  lemma HeadInNumbers(key: Bytestring)
    ensures |key| >= 4 && key[..4] == [1, 2, 3, 4] ==> ExtractHead(key) == 0x01020304
    ensures key == [0xab, 0xcd] ==> ExtractHead(key) == 0xabcd0000
    ensures |key| < 4 ==> ExtractHead(key) == ExtractHead(key + [0])
  {
    if |key| >= 4 {
      assert key[..4][0] == key[0] && key[..4][1] == key[1] && key[..4][2] == key[2] && key[..4][3] == key[3];
    }
  }

  /** Heads preserve the order: a smaller head decides, an equal head does not. */
  lemma HeadMonotone(a: Bytestring, b: Bytestring)
    requires Less(a, b)
    ensures ExtractHead(a) <= ExtractHead(b)
  {
    var p := FirstDifference(a, b);
    forall i | 0 <= i < p
      ensures ByteAt(a, i) == ByteAt(b, i)
    {
      assert a[..p][i] == b[..p][i];
    }
    assert ByteAt(a, p) <= ByteAt(b, p);
    if p == |a| {
      assert forall i | i >= p :: ByteAt(a, i) == 0;
    }
  }

  lemma HeadDecides(a: Bytestring, b: Bytestring)
    requires ExtractHead(a) < ExtractHead(b)
    ensures Less(a, b)
  {
    LessTotal(a, b);
    if Less(b, a) {
      HeadMonotone(b, a);
    }
  }
}
