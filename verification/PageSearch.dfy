// Searching a sorted directory: key heads, sampled hints and binary search.
module PageSearch {
  import opened Bytes

  ghost predicate Ascending(keys: seq<Bytestring>) {
    forall i, j | 0 <= i < j < |keys| :: Less(keys[i], keys[j])
  }

  /** All the keys of a stretch of the directory come before `key`. */
  ghost predicate AllBelow(keys: seq<Bytestring>, lo: nat, hi: nat, key: Bytestring) {
    forall j | lo <= j < hi <= |keys| :: Less(keys[j], key)
  }

  /** All the keys of a stretch of the directory come after `key`. */
  ghost predicate AllAbove(keys: seq<Bytestring>, lo: nat, hi: nat, key: Bytestring) {
    forall j | lo <= j < hi <= |keys| :: Less(key, keys[j])
  }

  /** The first slot whose key does not come before `key`: what a scan from the left would stop at. */
  function Scan(keys: seq<Bytestring>, key: Bytestring): (i: nat)
    ensures i <= |keys|
    ensures forall j | 0 <= j < i :: Less(keys[j], key)
    ensures i < |keys| ==> !Less(keys[i], key)
    decreases |keys|
  {
    if |keys| == 0 || !Less(keys[0], key) then 0
    else
      var i := Scan(keys[1..], key);
      assert forall j | 1 <= j < i + 1 :: keys[j] == keys[1..][j - 1];
      i + 1
  }

  /** Where every smaller key ends and every larger one starts is where the scan stops, without finding the key. */
  lemma ScanMisses(keys: seq<Bytestring>, key: Bytestring, i: nat)
    requires i <= |keys| && AllBelow(keys, 0, i, key) && AllAbove(keys, i, |keys|, key)
    ensures i == Scan(keys, key) && key !in keys
  {
    forall j | 0 <= j < |keys|
      ensures keys[j] != key && (Less(keys[j], key) <==> j < i)
    {
      if j < i {
        LessAsymmetric(keys[j], key);
      } else {
        LessAsymmetric(key, keys[j]);
      }
    }
    var r := Scan(keys, key);
    assert r < |keys| ==> (Less(keys[r], key) <==> r < i);
    assert i < |keys| ==> !Less(keys[i], key);
  }

  /** A slot that holds the key is where the scan stops. */
  lemma ScanHits(keys: seq<Bytestring>, key: Bytestring, i: nat)
    requires Ascending(keys) && i < |keys| && keys[i] == key
    ensures i == Scan(keys, key)
  {
    LessIrreflexive(key);
    var r := Scan(keys, key);
  }

  // ------------------------------------------------------------ binary search

  /** Comparing heads first, then bytes, then lengths. */
  lemma CompareHeads(key: Bytestring, other: Bytestring)
    ensures ExtractHead(key) < ExtractHead(other) ==> Less(key, other)
    ensures ExtractHead(key) > ExtractHead(other) ==> Less(other, key)
  {
    if ExtractHead(key) < ExtractHead(other) {
      HeadDecides(key, other);
    } else if ExtractHead(key) > ExtractHead(other) {
      HeadDecides(other, key);
    }
  }

  lemma BelowUpTo(keys: seq<Bytestring>, lo: nat, mid: nat, key: Bytestring)
    requires Ascending(keys) && mid < |keys| && Less(keys[mid], key)
    ensures AllBelow(keys, lo, mid + 1, key)
  {
    forall j | lo <= j < mid
      ensures Less(keys[j], key)
    {
      LessTransitive(keys[j], keys[mid], key);
    }
  }

  lemma AboveFrom(keys: seq<Bytestring>, mid: nat, hi: nat, key: Bytestring)
    requires Ascending(keys) && mid < hi <= |keys| && Less(key, keys[mid])
    ensures AllAbove(keys, mid, hi, key)
  {
    forall j | mid < j < hi
      ensures Less(key, keys[j])
    {
      LessTransitive(key, keys[mid], keys[j]);
    }
  }

  // ------------------------------------------------------------ hints

  /** The slot that hint `i` samples. */
  function Sample(dist: nat, i: nat): nat {
    dist * (i + 1)
  }

  function Distance(count: nat): nat {
    count / 17
  }

  lemma SampleOrder(dist: nat, i: nat, j: nat)
    requires i <= j
    ensures Sample(dist, i) <= Sample(dist, j)
  {
    assert Sample(dist, j) == Sample(dist, i) + dist * (j - i);
  }

  lemma SampleBound(count: nat, i: nat)
    requires i < 16 && count > 0
    ensures Sample(Distance(count), i) < count
  {
    var d := Distance(count);
    SampleOrder(d, i, 15);
    assert Sample(d, 15) == 16 * d;
  }

  ghost predicate Rising(heads: seq<nat>) {
    forall i, j | 0 <= i <= j < |heads| :: heads[i] <= heads[j]
  }

  function Heads(keys: seq<Bytestring>): (r: seq<nat>)
    ensures |r| == |keys|
  {
    seq(|keys|, i requires 0 <= i < |keys| => ExtractHead(keys[i]))
  }

  lemma HeadsRise(keys: seq<Bytestring>)
    requires Ascending(keys)
    ensures Rising(Heads(keys))
  {
    forall i, j | 0 <= i < j < |keys|
      ensures Heads(keys)[i] <= Heads(keys)[j]
    {
      HeadMonotone(keys[i], keys[j]);
    }
  }

  /** The hint table samples the directory evenly. */
  ghost predicate Sampled(hint: seq<nat>, heads: seq<nat>, dist: nat) {
    |hint| == 16 && forall i | 0 <= i < 16 :: Sample(dist, i) < |heads| && hint[i] == heads[Sample(dist, i)]
  }

  /** The hint table is one the search may use: small directories are searched without it. */
  ghost predicate Fresh(hint: seq<nat>, heads: seq<nat>) {
    |heads| > 32 ==> Sampled(hint, heads, Distance(|heads|))
  }

  /** The first hint from `from` on that is at least `head`. */
  function FirstAtLeast(hint: seq<nat>, head: nat, from: nat): (p: nat)
    requires from <= |hint|
    ensures from <= p <= |hint|
    ensures forall i | from <= i < p :: hint[i] < head
    ensures p < |hint| ==> hint[p] >= head
    decreases |hint| - from
  {
    if from == |hint| || hint[from] >= head then from else FirstAtLeast(hint, head, from + 1)
  }

  /** The first hint from `from` on that differs from `head`. */
  function FirstOther(hint: seq<nat>, head: nat, from: nat): (p: nat)
    requires from <= |hint|
    ensures from <= p <= |hint|
    ensures forall i | from <= i < p :: hint[i] == head
    ensures p < |hint| ==> hint[p] != head
    decreases |hint| - from
  {
    if from == |hint| || hint[from] != head then from else FirstOther(hint, head, from + 1)
  }

  /** The stretch of the directory that the hints leave to the binary search. */
  datatype Range = Range(lo: nat, hi: nat)

  function HintRange(hint: seq<nat>, head: nat, count: nat): (r: Range)
    requires |hint| == 16
    ensures r.lo <= r.hi <= count
  {
    if count <= 32 then Range(0, count)
    else
      var p := FirstAtLeast(hint, head, 0);
      var q := FirstOther(hint, head, p);
      var d := Distance(count);
      RangeBounds(p, q, count);
      Range(Start(d, p), if q < 16 then Sample(d, q) else count)
  }

  /** The slot that the hint before `p` samples. */
  function Start(dist: nat, p: nat): nat {
    if p == 0 then 0 else Sample(dist, p - 1)
  }

  lemma RangeBounds(p: nat, q: nat, count: nat)
    requires p <= q <= 16 && count > 0
    ensures Start(Distance(count), p) <= count
    ensures q < 16 ==> Start(Distance(count), p) <= Sample(Distance(count), q) <= count
  {
    if p > 0 {
      SampleBound(count, p - 1);
      SampleOrder(Distance(count), p - 1, q);
    }
    if q < 16 {
      SampleBound(count, q);
    }
  }

  /** Everything before the stretch has a smaller head. */
  lemma RangeBelow(hint: seq<nat>, heads: seq<nat>, head: nat, j: nat)
    requires Rising(heads) && Fresh(hint, heads) && |hint| == 16 && j < HintRange(hint, head, |heads|).lo
    ensures heads[j] < head
  {
    var p := FirstAtLeast(hint, head, 0);
    assert p > 0 && hint[p - 1] < head;
    assert heads[j] <= heads[Sample(Distance(|heads|), p - 1)];
  }

  /** Everything after the stretch has a larger head. */
  lemma RangeAbove(hint: seq<nat>, heads: seq<nat>, head: nat, j: nat)
    requires Rising(heads) && Fresh(hint, heads) && |hint| == 16 && HintRange(hint, head, |heads|).hi <= j < |heads|
    ensures heads[j] > head
  {
    var p := FirstAtLeast(hint, head, 0);
    var q := FirstOther(hint, head, p);
    var d := Distance(|heads|);
    SampleOrder(d, p, q);
    assert hint[p] <= hint[q] && heads[Sample(d, q)] <= heads[j];
  }

  /** With fresh hints the key is in the stretch that is left, if anywhere. */
  lemma RangeEncloses(hint: seq<nat>, keys: seq<Bytestring>, key: Bytestring)
    requires Ascending(keys) && |hint| == 16 && Fresh(hint, Heads(keys))
    ensures var r := HintRange(hint, ExtractHead(key), |keys|);
            AllBelow(keys, 0, r.lo, key) && AllAbove(keys, r.hi, |keys|, key)
  {
    var r := HintRange(hint, ExtractHead(key), |keys|);
    HeadsRise(keys);
    forall j | 0 <= j < r.lo
      ensures Less(keys[j], key)
    {
      RangeBelow(hint, Heads(keys), ExtractHead(key), j);
      CompareHeads(key, keys[j]);
    }
    forall j | r.hi <= j < |keys|
      ensures Less(key, keys[j])
    {
      RangeAbove(hint, Heads(keys), ExtractHead(key), j);
      CompareHeads(key, keys[j]);
    }
  }

  /** The search for the key in slot `j` is left a stretch that holds the slot. */
  ghost predicate InStretch(hint: seq<nat>, heads: seq<nat>, j: nat)
    requires |hint| == 16 && j < |heads|
  {
    var r := HintRange(hint, heads[j], |heads|);
    r.lo <= j < r.hi
  }

  /** The hints mislead no search for a stored key. */
  ghost predicate Serves(hint: seq<nat>, heads: seq<nat>)
    requires |hint| == 16
  {
    forall j | 0 <= j < |heads| :: InStretch(hint, heads, j)
  }

  lemma FreshServes(hint: seq<nat>, heads: seq<nat>)
    requires Rising(heads) && |hint| == 16 && Fresh(hint, heads)
    ensures Serves(hint, heads)
  {
    forall j | 0 <= j < |heads|
      ensures InStretch(hint, heads, j)
    {
      var r := HintRange(hint, heads[j], |heads|);
      if j < r.lo {
        RangeBelow(hint, heads, heads[j], j);
      } else if r.hi <= j {
        RangeAbove(hint, heads, heads[j], j);
      }
    }
  }

  // ------------------------------------------------------------ keeping the hints

  /** The first hint that an insertion at `slot` rewrites, with `count` slots. */
  function UpdateBegin(count: nat, slot: nat): nat {
    if count > 33 && Distance(count - 1) == Distance(count) && slot / Distance(count) > 1
    then slot / Distance(count) - 1 else 0
  }

  /** `hint'` is `hint` with the entries from `begin` on sampled again. */
  ghost predicate Resampled(hint: seq<nat>, hint': seq<nat>, heads: seq<nat>, dist: nat, begin: nat) {
    && |hint| == |hint'| == 16
    && (forall i | 0 <= i < 16 && i < begin :: hint'[i] == hint[i])
    && (forall i | begin <= i < 16 :: Sample(dist, i) < |heads| && hint'[i] == heads[Sample(dist, i)])
  }

  lemma KeptSample(count: nat, slot: nat, i: nat)
    requires i < UpdateBegin(count, slot)
    ensures Sample(Distance(count), i) < slot
  {
    var d := Distance(count);
    var k := slot / d;
    SampleOrder(d, i, k - 2);
  }

  /** Rewriting only the later hints after an insertion leaves what rewriting all of them would. */
  lemma PartialUpdate(hint: seq<nat>, hint': seq<nat>, heads: seq<nat>, heads': seq<nat>, slot: nat)
    requires slot <= |heads| && |heads'| == |heads| + 1 && heads'[..slot] == heads[..slot]
    requires Fresh(hint, heads)
    requires Resampled(hint, hint', heads', Distance(|heads'|), UpdateBegin(|heads'|, slot))
    ensures Sampled(hint', heads', Distance(|heads'|))
  {
    var d := Distance(|heads'|);
    forall i | 0 <= i < 16
      ensures Sample(d, i) < |heads'| && hint'[i] == heads'[Sample(d, i)]
    {
      if i < UpdateBegin(|heads'|, slot) {
        KeptSample(|heads'|, slot, i);
        assert heads'[Sample(d, i)] == heads'[..slot][Sample(d, i)] == heads[Sample(d, i)];
      }
    }
  }

  /** Two distances sample the same heads. */
  ghost predicate SameSamples(heads: seq<nat>, d: nat, e: nat) {
    forall i | 0 <= i < 16 ::
      Sample(d, i) < |heads| && Sample(e, i) < |heads| && heads[Sample(d, i)] == heads[Sample(e, i)]
  }

  /** The hints can be brought up to date by an append: they are fresh, or the append will rewrite all of them. */
  ghost predicate Refreshable(hint: seq<nat>, heads: seq<nat>) {
    |heads| % 17 == 0 || Fresh(hint, heads)
  }

  /** When an append that samples before it counts the new slot leaves usable hints. */
  ghost predicate AppendKeepsHints(heads: seq<nat>) {
    var n := |heads|;
    n + 1 <= 32 || (n + 1) % 17 != 0 || SameSamples(heads, Distance(n), Distance(n + 1))
  }

  /** An append samples the directory without the new slot, whatever the hints were just after a stale append. */
  lemma AppendSamples(hint: seq<nat>, hint': seq<nat>, heads: seq<nat>)
    requires Refreshable(hint, heads) && |heads| > 0
    requires Resampled(hint, hint', heads, Distance(|heads|), UpdateBegin(|heads|, |heads|))
    ensures Sampled(hint', heads, Distance(|heads|))
  {
    var d := Distance(|heads|);
    forall i | 0 <= i < 16
      ensures Sample(d, i) < |heads| && hint'[i] == heads[Sample(d, i)]
    {
    }
  }

  lemma SamplesAgree(hint: seq<nat>, heads: seq<nat>, head: nat, d: nat, e: nat)
    requires Sampled(hint, heads, d) && (forall i | 0 <= i < 16 :: Sample(e, i) < |heads|)
    ensures Sampled(hint, heads + [head], e) <==> SameSamples(heads, d, e)
  {
    forall i | 0 <= i < 16
      ensures hint[i] == heads[Sample(d, i)] && (heads + [head])[Sample(e, i)] == heads[Sample(e, i)]
    {
    }
  }

  /** An append leaves usable hints exactly when its condition holds. */
  lemma AppendFresh(hint: seq<nat>, heads: seq<nat>, head: nat)
    requires |heads| > 0 && Sampled(hint, heads, Distance(|heads|))
    ensures Fresh(hint, heads + [head]) <==> AppendKeepsHints(heads)
  {
    var n, e := |heads|, Distance(|heads| + 1);
    if n + 1 > 32 {
      forall i | 0 <= i < 16
        ensures Sample(e, i) < n
      {
      }
      SamplesAgree(hint, heads, head, Distance(n), e);
      assert (n + 1) % 17 != 0 ==> Distance(n) == Distance(n + 1);
    }
  }

  // ------------------------------------------------------------ lookups after an append

  /** The slot that the hint was taken from has the head of the last slot before the one that it now stands for. */
  ghost predicate HintReaches(heads: seq<nat>, d: nat, i: nat) {
    Sample(d, i) < |heads| && 0 < Sample(d + 1, i) <= |heads| && heads[Sample(d, i)] == heads[Sample(d + 1, i) - 1]
  }

  ghost predicate HintsReach(heads: seq<nat>, d: nat) {
    forall i | 0 <= i < 16 :: HintReaches(heads, d, i)
  }

  /** When lookups find every key after an append that samples before it counts the new slot. */
  ghost predicate AppendServes(heads: seq<nat>) {
    var n := |heads|;
    n + 1 <= 32 || (n + 1) % 17 != 0 || HintsReach(heads, Distance(n))
  }

  lemma SampleNext(d: nat, i: nat)
    requires d > 0
    ensures 0 < Sample(d, i) <= Sample(d + 1, i) - 1
    ensures Sample(d + 1, i) == Sample(d, i) + i + 1
  {
  }

  /** Hints of the shorter distance that reach leave every slot in its stretch. */
  lemma ReachServes(hint: seq<nat>, heads: seq<nat>, d: nat, j: nat)
    requires Rising(heads) && Sampled(hint, heads, d) && |heads| > 32 && Distance(|heads|) == d + 1 && d > 0
    requires HintsReach(heads, d) && j < |heads|
    ensures InStretch(hint, heads, j)
  {
    var h, p := heads[j], FirstAtLeast(hint, heads[j], 0);
    var q := FirstOther(hint, h, p);
    if p > 0 {
      SampleNext(d, p - 1);
      assert HintReaches(heads, d, p - 1);
      assert heads[Sample(d + 1, p - 1) - 1] == hint[p - 1] < h;
    }
    if q < 16 {
      SampleNext(d, q);
      SampleOrder(d, p, q);
      assert heads[Sample(d, p)] <= heads[Sample(d, q)];
      assert heads[Sample(d, q)] == hint[q] > h;
    }
  }

  /** A hint that does not reach hides the last slot before the one that it stands for. */
  lemma ShortHintHides(hint: seq<nat>, heads: seq<nat>, d: nat, i: nat)
    requires Rising(heads) && Sampled(hint, heads, d) && |heads| > 32 && Distance(|heads|) == d + 1 && d > 0
    requires i < 16 && 0 < Sample(d + 1, i) <= |heads| && !HintReaches(heads, d, i)
    ensures !InStretch(hint, heads, Sample(d + 1, i) - 1)
  {
    var j := Sample(d + 1, i) - 1;
    SampleNext(d, i);
    assert heads[Sample(d, i)] <= heads[j];
    var p := FirstAtLeast(hint, heads[j], 0);
    forall k | 0 <= k <= i
      ensures hint[k] < heads[j]
    {
      SampleOrder(d, k, i);
    }
    SampleOrder(d + 1, i, p - 1);
  }

  lemma NextDistance(n: nat)
    requires n + 1 > 32
    ensures (n + 1) % 17 == 0 ==> Distance(n + 1) == Distance(n) + 1 && Distance(n) > 0
    ensures (n + 1) % 17 != 0 ==> Distance(n + 1) == Distance(n)
  {
  }

  lemma HintsReachMore(heads: seq<nat>, head: nat, d: nat)
    requires 0 < d && 17 * (d + 1) == |heads| + 1
    ensures HintsReach(heads + [head], d) <==> HintsReach(heads, d)
  {
    var all := heads + [head];
    forall i | 0 <= i < 16
      ensures HintReaches(all, d, i) <==> HintReaches(heads, d, i)
    {
      SampleNext(d, i);
      SampleOrder(d + 1, i, 15);
    }
  }

  lemma MovedHintsServe(hint: seq<nat>, heads: seq<nat>, d: nat)
    requires Rising(heads) && Sampled(hint, heads, d) && |heads| == 17 * (d + 1) && d > 0
    ensures Serves(hint, heads) <==> HintsReach(heads, d)
  {
    if HintsReach(heads, d) {
      forall j | 0 <= j < |heads|
        ensures InStretch(hint, heads, j)
      {
        ReachServes(hint, heads, d, j);
      }
    }
    if Serves(hint, heads) {
      forall i | 0 <= i < 16
        ensures HintReaches(heads, d, i)
      {
        SampleOrder(d + 1, i, 15);
        if !HintReaches(heads, d, i) {
          SampleNext(d, i);
          ShortHintHides(hint, heads, d, i);
        }
      }
    }
  }

  /** What an append did to the hints: what they sample, when they are fresh, and when lookups find every key. */
  ghost predicate Appended(hint: seq<nat>, heads': seq<nat>, heads: seq<nat>)
    requires |hint| == 16
  {
    && (|heads| > 0 ==> Sampled(hint, heads, Distance(|heads|)))
    && (Fresh(hint, heads') <==> AppendKeepsHints(heads)) && (Serves(hint, heads') <==> AppendServes(heads))
  }

  /** After an append, lookups find every key if and only if the condition on the directory before it holds. */
  lemma AppendServesIff(hint: seq<nat>, heads: seq<nat>, head: nat)
    requires Rising(heads + [head]) && |hint| == 16 && (|heads| >= 32 ==> Sampled(hint, heads, Distance(|heads|)))
    ensures Serves(hint, heads + [head]) <==> AppendServes(heads)
  {
    var n, all, d := |heads|, heads + [head], Distance(|heads|);
    if n + 1 <= 32 {
      FreshServes(hint, all);
    } else {
      NextDistance(n);
      assert Sampled(hint, all, d);
      if (n + 1) % 17 != 0 {
        FreshServes(hint, all);
      } else {
        MovedHintsServe(hint, all, d);
        HintsReachMore(heads, head, d);
      }
    }
  }

  /** A directory of 34 one-byte keys, appended in order. */
  function OneByteKeys(n: nat): (keys: seq<Bytestring>)
    requires n <= 256
    ensures |keys| == n
  {
    seq(n, i requires 0 <= i < n => [i as Byte])
  }

  /** The 34th append leaves hints that hide the key in slot 17: the search is sent to slots 32 and 33. */
  lemma AppendHidesKey(hint: seq<nat>)
    requires Sampled(hint, Heads(OneByteKeys(33)), Distance(33))
    ensures Ascending(OneByteKeys(34)) && OneByteKeys(34)[17] == [17]
    ensures !AppendServes(Heads(OneByteKeys(33)))
    ensures HintRange(hint, ExtractHead([17]), 34) == Range(32, 34)
  {
    var heads := Heads(OneByteKeys(33));
    forall i | 0 <= i < 16
      ensures hint[i] < ExtractHead([17])
    {
      assert hint[i] == heads[Sample(1, i)] == heads[i + 1];
    }
    assert !HintReaches(heads, 1, 1);
    assert FirstAtLeast(hint, ExtractHead([17]), 0) == 16;
  }
}
