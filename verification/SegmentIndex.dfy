// The ordered segment index and the regions that rewrites pick from it.
module SegmentIndex {
  import opened Coding
  import opened SegmentProtocol
  import opened ProtocolInvariant
  import opened ProtocolPublish

  /** The index as a map from lower bounds to ids. */
  ghost function AsMap(entries: seq<Entry>): Index {
    InsertAll(map[], entries)
  }

  /** Segments in key order that cover the key space. */
  ghost predicate Ordered(entries: seq<Entry>) {
    Chain(entries) && Lo(entries) == 0 && Hi(entries) == MAX_KEY && Distinct(entries)
  }

  lemma AsMapKeys(entries: seq<Entry>, l: Key)
    ensures l in AsMap(entries) <==> l in Lowers(entries)
  {
    InsertAllKeys(map[], entries, l);
  }

  lemma AsMapAt(entries: seq<Entry>, i: nat)
    requires Chain(entries) && i < |entries|
    ensures entries[i].lower in AsMap(entries) && AsMap(entries)[entries[i].lower] == entries[i].id
  {
    forall a, b | 0 <= a < b < |entries|
      ensures entries[a].lower < entries[b].lower
    {
      ChainRises(entries, a, b);
    }
    InsertAllAt(map[], entries, i);
  }

  /** A lower bound strictly inside a segment would be that of another one. */
  lemma NoneInside(entries: seq<Entry>, i: nat, l: Key)
    requires Chain(entries) && i < |entries| && l in Lowers(entries)
    ensures !(entries[i].lower < l < entries[i].upper)
  {
    var j :| 0 <= j < |entries| && entries[j].lower == l;
    if i < j {
      ChainRises(entries, i, j);
    } else if j < i {
      ChainRises(entries, j, i);
    }
  }

  /** Each segment of the sequence is in the map, with its bounds. */
  lemma HasAt(entries: seq<Entry>, i: nat)
    requires Ordered(entries) && i < |entries|
    ensures Has(AsMap(entries), entries[i])
  {
    AsMapAt(entries, i);
    ChainBounds(entries, i);
    if i < |entries| - 1 {
      AsMapAt(entries, i + 1);
    }
    forall l | l in AsMap(entries)
      ensures !(entries[i].lower < l < entries[i].upper)
    {
      AsMapKeys(entries, l);
      NoneInside(entries, i, l);
    }
  }

  /** A stretch of the index is a chain of indexed segments. */
  lemma SliceIsRegion(entries: seq<Entry>, a: nat, b: nat)
    requires Ordered(entries) && a < b <= |entries|
    ensures Chain(entries[a..b]) && AllIn(AsMap(entries), entries[a..b])
  {
    forall i | 0 <= i < b - a
      ensures Has(AsMap(entries), entries[a..b][i])
    {
      HasAt(entries, a + i);
    }
  }

  /** The stretch around `it` that a rewrite takes: neighbours with overflow pages, as far as the radius goes. */
  ghost predicate RewriteStretch(overflow: seq<bool>, it: nat, radius: nat, a: nat, b: nat) {
    && a <= it < b <= |overflow| && it - a <= radius && b - 1 - it <= radius
    && (forall j | a <= j < b && j != it :: overflow[j])
    && (a == 0 || it - a == radius || !overflow[a - 1])
    && (b == |overflow| || b - 1 - it == radius || !overflow[b])
  }

  /** The first stretch of segments with overflow pages between two keys, as far as it goes. */
  ghost predicate OverflowStretch(entries: seq<Entry>, overflow: seq<bool>, from: nat, end: Key, a: nat, b: nat)
    requires |entries| == |overflow|
  {
    && from <= a <= b <= |entries|
    && (forall j | from <= j < a :: !overflow[j] && entries[j].lower < end)
    && (forall j | a <= j < b :: overflow[j] && entries[j].lower < end)
    && (b == |entries| || entries[b].lower >= end || !overflow[b])
    && (a == b ==> a == |entries| || entries[a].lower >= end)
  }

  /** The model of a segment's pages. */
  datatype Model = Model(slope: real, intercept: real)

  /** What was seen of a segment besides its bounds and id. */
  datatype Seen = Seen(overflow: bool, model: Model)

  class SegmentIndex {
    var entries: seq<Entry>
    var overflow: seq<bool>
    var models: seq<Model>

    ghost predicate Valid()
      reads this
    {
      Ordered(entries) && |overflow| == |models| == |entries|
    }

    /** The first segment whose lower bound is above `key`. */
    method UpperBound(key: Key) returns (i: nat)
      requires Valid()
      ensures i <= |entries|
      ensures forall j | 0 <= j < i :: entries[j].lower <= key
      ensures forall j | i <= j < |entries| :: key < entries[j].lower
    {
      var lo: nat, hi: nat := 0, |entries|;
      while lo < hi
        invariant lo <= hi <= |entries|
        invariant forall j | 0 <= j < lo :: entries[j].lower <= key
        invariant forall j | hi <= j < |entries| :: key < entries[j].lower
        decreases hi - lo
      {
        var mid := lo + (hi - lo) / 2;
        LowersAround(entries, mid);
        if entries[mid].lower <= key {
          lo := mid + 1;
        } else {
          hi := mid;
        }
      }
      i := lo;
    }

    /** The segment that a key belongs to. */
    method SegmentForKey(key: Key) returns (e: Entry)
      requires Valid() && key < MAX_KEY
      ensures Has(AsMap(entries), e) && e.Contains(key)
    {
      var i := UpperBound(key);
      FloorContains(entries, i, key);
      e := entries[i - 1];
      HasAt(entries, i - 1);
    }

    /** The segment after the one that a key belongs to. */
    method NextSegmentForKey(key: Key) returns (e: Option<Entry>)
      requires Valid()
      ensures e.Some? ==> NextAfter(AsMap(entries), key, e.value)
      ensures e.None? <==> forall l | l in AsMap(entries) :: l <= key
    {
      var i := UpperBound(key);
      CeilingIsNext(entries, i, key);
      if i == |entries| {
        return None;
      }
      return Some(entries[i]);
    }

    /** The region around the first segment at or after `base`. */
    method FindRewriteRegion(base: Key, radius: nat) returns (region: seq<Entry>, ghost it: nat, ghost a: nat)
      requires Valid() && base <= entries[|entries| - 1].lower
      ensures Chain(region) && AllIn(AsMap(entries), region)
      ensures it < |entries| && base <= entries[it].lower && (forall j | 0 <= j < it :: entries[j].lower < base)
      ensures a + |region| <= |entries| && region == entries[a..a + |region|]
      ensures RewriteStretch(overflow, it, radius, a, a + |region|)
    {
      var i := 0;
      if base > 0 {
        i := UpperBound(base - 1);
      }
      it := i;
      var first: nat, left: nat := i, radius;
      while left > 0 && first > 0 && overflow[first - 1]
        invariant first <= i < |entries| && left == radius - (i - first)
        invariant forall j | first <= j < i :: overflow[j]
        decreases first
      {
        first, left := first - 1, left - 1;
      }
      var end := i + 1;
      left := radius;
      while left > 0 && end < |entries| && overflow[end]
        invariant i < end <= |entries| && left == radius - (end - 1 - i)
        invariant forall j | i < j < end :: overflow[j]
        decreases |entries| - end
      {
        end, left := end + 1, left - 1;
      }
      region, a := entries[first..end], first;
      SliceIsRegion(entries, first, end);
    }

    /** The next region of segments with overflow pages that starts before `end`. */
    method FindNextOverflowRegion(start: Key, end: Key) returns (region: seq<Entry>, ghost from: nat, ghost a: nat)
      requires Valid() && start < MAX_KEY
      ensures from < |entries| && entries[from].Contains(start)
      ensures a + |region| <= |entries| && region == entries[a..a + |region|]
      ensures OverflowStretch(entries, overflow, from, end, a, a + |region|)
      ensures |region| > 0 ==> Chain(region) && AllIn(AsMap(entries), region)
    {
      var i := UpperBound(start);
      FloorContains(entries, i, start);
      from := i - 1;
      var first := SkipUntilOverflow(i - 1, end);
      a, region := first, [];
      if first < |entries| && entries[first].lower < end {
        var last := SkipOverflow(first, end);
        region := entries[first..last];
        SliceIsRegion(entries, first, last);
      }
    }

    method SkipUntilOverflow(from: nat, end: Key) returns (i: nat)
      requires Valid() && from < |entries|
      ensures from <= i <= |entries|
      ensures forall j | from <= j < i :: !overflow[j] && entries[j].lower < end
      ensures i == |entries| || entries[i].lower >= end || overflow[i]
    {
      i := from;
      while i < |entries| && entries[i].lower < end && !overflow[i]
        invariant from <= i <= |entries|
        invariant forall j | from <= j < i :: !overflow[j] && entries[j].lower < end
      {
        i := i + 1;
      }
    }

    method SkipOverflow(from: nat, end: Key) returns (i: nat)
      requires Valid() && from < |entries| && overflow[from] && entries[from].lower < end
      ensures from < i <= |entries|
      ensures forall j | from <= j < i :: overflow[j] && entries[j].lower < end
      ensures i == |entries| || entries[i].lower >= end || !overflow[i]
    {
      i := from + 1;
      while i < |entries| && entries[i].lower < end && overflow[i]
        invariant from < i <= |entries|
        invariant forall j | from <= j < i :: overflow[j] && entries[j].lower < end
      {
        i := i + 1;
      }
    }

    /** The segment at `j` has the lower bound, the id, the overflow flag and the model that were seen. */
    predicate Unchanged(j: nat, e: Entry, seen: Seen)
      requires j < |entries| && j < |overflow| && j < |models|
      reads this
    {
      Matches(entries[j], e) && overflow[j] == seen.overflow && models[j] == seen.model
    }

    /** What was seen of the segments of a region is what the index has of those with the same lower bounds. */
    ghost predicate AllUnchanged(region: seq<Entry>, seen: seq<Seen>)
      requires Valid() && |seen| == |region|
      reads this
    {
      forall i, j | 0 <= i < |region| && 0 <= j < |entries| && entries[j].lower == region[i].lower :: Unchanged(j, region[i], seen[i])
    }

    /** Whether the segments of a locked region are still there as they were seen, one after the other. */
    method StillValid(region: seq<Entry>, seen: seq<Seen>) returns (ok: bool)
      requires Valid() && Chain(region) && |seen| == |region|
      ensures ok <==> Accepts(AsMap(entries), region) && AllUnchanged(region, seen)
    {
      var at := UpperBound(region[0].lower);
      if at == 0 || entries[at - 1].lower != region[0].lower {
        MissingLower(entries, region, at);
        return false;
      }
      var start: nat := at - 1;
      var i: nat := 0;
      while i < |region|
        invariant i <= |region| && start + i <= |entries|
        invariant forall j | 0 <= j < i :: Unchanged(start + j, region[j], seen[j])
      {
        if start + i >= |entries| || !Matches(entries[start + i], region[i]) {
          NotAccepted(entries, region, start, i);
          return false;
        }
        if overflow[start + i] != seen[i].overflow || models[start + i] != seen[i].model {
          assert !Unchanged(start + i, region[i], seen[i]);
          return false;
        }
        i := i + 1;
      }
      MatchedAccepted(entries, region, start);
      MatchedUnchanged(region, seen, start);
      return true;
    }

    lemma MatchedUnchanged(region: seq<Entry>, seen: seq<Seen>, start: nat)
      requires Valid() && |seen| == |region| && start + |region| <= |entries|
      requires forall j | 0 <= j < |region| :: Unchanged(start + j, region[j], seen[j])
      ensures AllUnchanged(region, seen)
    {
      forall i, j | 0 <= i < |region| && 0 <= j < |entries| && entries[j].lower == region[i].lower
        ensures Unchanged(j, region[i], seen[i])
      {
        assert Unchanged(start + i, region[i], seen[i]);
        LowersAround(entries, start + i);
      }
    }
  }

  predicate Matches(e: Entry, f: Entry) {
    e.lower == f.lower && e.id == f.id
  }

  lemma LowersAround(entries: seq<Entry>, mid: nat)
    requires Chain(entries) && mid < |entries|
    ensures forall j | 0 <= j < mid :: entries[j].lower < entries[mid].lower
    ensures forall j | mid < j < |entries| :: entries[mid].lower < entries[j].lower
  {
    forall j | 0 <= j < mid
      ensures entries[j].lower < entries[mid].lower
    {
      ChainRises(entries, j, mid);
    }
    forall j | mid < j < |entries|
      ensures entries[mid].lower < entries[j].lower
    {
      ChainRises(entries, mid, j);
    }
  }

  lemma FloorContains(entries: seq<Entry>, i: nat, key: Key)
    requires Ordered(entries) && i <= |entries| && key < MAX_KEY
    requires forall j | 0 <= j < i :: entries[j].lower <= key
    requires forall j | i <= j < |entries| :: key < entries[j].lower
    ensures i > 0 && entries[i - 1].Contains(key)
  {
    if i < |entries| && i > 0 {
      assert entries[i - 1].upper == entries[i].lower;
    }
  }

  lemma CeilingIsNext(entries: seq<Entry>, i: nat, key: Key)
    requires Ordered(entries) && i <= |entries|
    requires forall j | 0 <= j < i :: entries[j].lower <= key
    requires forall j | i <= j < |entries| :: key < entries[j].lower
    ensures i < |entries| ==> NextAfter(AsMap(entries), key, entries[i])
    ensures i == |entries| <==> forall l | l in AsMap(entries) :: l <= key
  {
    if i < |entries| {
      HasAt(entries, i);
      LowersAround(entries, i);
    }
    forall l | l in AsMap(entries)
      ensures exists j :: 0 <= j < |entries| && entries[j].lower == l
    {
      AsMapKeys(entries, l);
    }
  }

  lemma MissingLower(entries: seq<Entry>, region: seq<Entry>, at: nat)
    requires |region| > 0 && at <= |entries| && (at == 0 || entries[at - 1].lower != region[0].lower)
    requires forall j | 0 <= j < at :: entries[j].lower <= region[0].lower
    requires forall j | at <= j < |entries| :: region[0].lower < entries[j].lower
    requires Chain(entries)
    ensures !Accepts(AsMap(entries), region)
  {
    AsMapKeys(entries, region[0].lower);
    if at > 0 {
      LowersAround(entries, at - 1);
    }
  }

  lemma MatchedAccepted(entries: seq<Entry>, region: seq<Entry>, start: nat)
    requires Chain(entries) && |region| > 0 && start + |region| <= |entries|
    requires forall j | 0 <= j < |region| :: Matches(entries[start + j], region[j])
    ensures Accepts(AsMap(entries), region)
  {
    forall i | 0 <= i < |region|
      ensures region[i].lower in AsMap(entries) && AsMap(entries)[region[i].lower] == region[i].id
    {
      AsMapAt(entries, start + i);
      assert Matches(entries[start + i], region[i]);
    }
    forall i, l | 0 <= i < |region| - 1 && l in AsMap(entries)
      ensures !(region[i].lower < l < region[i + 1].lower)
    {
      AsMapKeys(entries, l);
      NoneInside(entries, start + i, l);
      assert Matches(entries[start + i], region[i]) && Matches(entries[start + i + 1], region[i + 1]);
      assert entries[start + i].upper == entries[start + i + 1].lower;
    }
  }

  /** The first mismatch along the index shows that the region is not accepted. */
  lemma NotAccepted(entries: seq<Entry>, region: seq<Entry>, start: nat, i: nat)
    requires Chain(entries) && Chain(region) && i < |region| && start < |entries| && start + i <= |entries|
    requires forall j | 0 <= j < i :: Matches(entries[start + j], region[j])
    requires start + i >= |entries| || !Matches(entries[start + i], region[i])
    requires entries[start].lower == region[0].lower
    ensures !Accepts(AsMap(entries), region)
  {
    if Accepts(AsMap(entries), region) {
      var l := region[i].lower;
      AsMapKeys(entries, l);
      var k :| 0 <= k < |entries| && entries[k].lower == l;
      AsMapAt(entries, k);
      if i == 0 {
        LowersAround(entries, start);
        assert false;
      } else {
        assert Matches(entries[start + i - 1], region[i - 1]);
        LowersAround(entries, start + i - 1);
        if start + i < |entries| {
          AsMapAt(entries, start + i);
          LowersAround(entries, start + i);
        }
      }
    }
  }
}
