// Merging sorted records where the newer of two equal keys wins.
module RecordMerge {
  import opened Bytes
  import opened SegmentModel
  import KeyMapping

  /** The records as a map. */
  function RecMap(rs: seq<Rec>): map<KeyMapping.Key, Bytestring> {
    if |rs| == 0 then map[] else map[rs[0].key := rs[0].value] + RecMap(rs[1..])
  }

  /** Two sorted sequences merged; where the keys are equal the record of `newer` is kept. */
  function Merge(older: seq<Rec>, newer: seq<Rec>): seq<Rec>
    decreases |older| + |newer|
  {
    if |older| == 0 then newer
    else if |newer| == 0 then older
    else if newer[0].key == older[0].key then [newer[0]] + Merge(older[1..], newer[1..])
    else if newer[0].key < older[0].key then [newer[0]] + Merge(older, newer[1..])
    else [older[0]] + Merge(older[1..], newer)
  }

  // ------------------------------------------------------------ what a merge is

  ghost predicate Beyond(rs: seq<Rec>, k: KeyMapping.Key) {
    forall i | 0 <= i < |rs| :: k < rs[i].key
  }

  lemma SortedTail(rs: seq<Rec>)
    requires SortedRecords(rs) && |rs| > 0
    ensures SortedRecords(rs[1..]) && Beyond(rs[1..], rs[0].key)
  {
    forall i | 0 <= i < |rs[1..]|
      ensures rs[0].key < rs[1..][i].key
    {
      assert rs[0].key < rs[i + 1].key;
    }
  }

  lemma {:induction false} MergeBeyond(older: seq<Rec>, newer: seq<Rec>, k: KeyMapping.Key)
    requires Beyond(older, k) && Beyond(newer, k)
    ensures Beyond(Merge(older, newer), k)
    decreases |older| + |newer|
  {
    if |older| > 0 && |newer| > 0 {
      if newer[0].key == older[0].key {
        MergeBeyond(older[1..], newer[1..], k);
      } else if newer[0].key < older[0].key {
        MergeBeyond(older, newer[1..], k);
      } else {
        MergeBeyond(older[1..], newer, k);
      }
    }
  }

  lemma BeyondHead(rs: seq<Rec>, k: KeyMapping.Key)
    requires SortedRecords(rs) && |rs| > 0 && k < rs[0].key
    ensures Beyond(rs, k)
  {
    forall i | 0 <= i < |rs|
      ensures k < rs[i].key
    {
      assert i > 0 ==> rs[0].key < rs[i].key;
    }
  }

  /** A merge is sorted. */
  lemma {:induction false} MergeSorted(older: seq<Rec>, newer: seq<Rec>)
    requires SortedRecords(older) && SortedRecords(newer)
    ensures SortedRecords(Merge(older, newer))
    decreases |older| + |newer|
  {
    if |older| > 0 && |newer| > 0 {
      SortedTail(older);
      SortedTail(newer);
      if newer[0].key == older[0].key {
        MergeSorted(older[1..], newer[1..]);
        MergeBeyond(older[1..], newer[1..], newer[0].key);
      } else if newer[0].key < older[0].key {
        MergeSorted(older, newer[1..]);
        BeyondHead(older, newer[0].key);
        MergeBeyond(older, newer[1..], newer[0].key);
      } else {
        MergeSorted(older[1..], newer);
        BeyondHead(newer, older[0].key);
        MergeBeyond(older[1..], newer, older[0].key);
      }
    }
  }

  lemma {:induction false} BeyondAbsent(rs: seq<Rec>, k: KeyMapping.Key)
    requires Beyond(rs, k)
    ensures k !in RecMap(rs)
    decreases |rs|
  {
    if |rs| > 0 {
      BeyondAbsent(rs[1..], k);
    }
  }

  lemma OverlayBoth(k: KeyMapping.Key, u: Bytestring, v: Bytestring, a: map<KeyMapping.Key, Bytestring>,
                    b: map<KeyMapping.Key, Bytestring>)
    requires k !in a && k !in b
    ensures map[k := v] + (a + b) == (map[k := u] + a) + (map[k := v] + b)
  {
  }

  lemma OverlayNewer(k: KeyMapping.Key, v: Bytestring, a: map<KeyMapping.Key, Bytestring>, b: map<KeyMapping.Key, Bytestring>)
    requires k !in a && k !in b
    ensures map[k := v] + (a + b) == a + (map[k := v] + b)
  {
  }

  lemma OverlayOlder(k: KeyMapping.Key, v: Bytestring, a: map<KeyMapping.Key, Bytestring>, b: map<KeyMapping.Key, Bytestring>)
    ensures map[k := v] + (a + b) == (map[k := v] + a) + b
  {
  }

  /** A merge holds the older records overlaid by the newer ones. */
  lemma {:induction false} MergeOverlays(older: seq<Rec>, newer: seq<Rec>)
    requires SortedRecords(older) && SortedRecords(newer)
    ensures RecMap(Merge(older, newer)) == RecMap(older) + RecMap(newer)
    decreases |older| + |newer|
  {
    if |older| > 0 && |newer| > 0 {
      SortedTail(older);
      SortedTail(newer);
      BeyondAbsent(newer[1..], newer[0].key);
      if newer[0].key == older[0].key {
        MergeOverlays(older[1..], newer[1..]);
        BeyondAbsent(older[1..], newer[0].key);
        OverlayBoth(newer[0].key, older[0].value, newer[0].value, RecMap(older[1..]), RecMap(newer[1..]));
      } else if newer[0].key < older[0].key {
        MergeOverlays(older, newer[1..]);
        BeyondHead(older, newer[0].key);
        BeyondAbsent(older, newer[0].key);
        OverlayNewer(newer[0].key, newer[0].value, RecMap(older), RecMap(newer[1..]));
      } else {
        MergeOverlays(older[1..], newer);
        OverlayOlder(older[0].key, older[0].value, RecMap(older[1..]), RecMap(newer));
      }
    }
  }

  // ------------------------------------------------------------ merging a region's pages

  function PageRecords(pages: seq<seq<Rec>>): seq<Rec> {
    if |pages| == 0 then [] else pages[0] + PageRecords(pages[1..])
  }

  /** One step: the smaller head, and the newer one of two equal heads. */
  lemma MergeStep(older: seq<Rec>, newer: seq<Rec>)
    requires |older| > 0
    ensures |newer| == 0 || older[0].key < newer[0].key ==> Merge(older, newer) == [older[0]] + Merge(older[1..], newer)
    ensures |newer| > 0 && newer[0].key < older[0].key ==> Merge(older, newer) == [newer[0]] + Merge(older, newer[1..])
    ensures |newer| > 0 && newer[0].key == older[0].key ==> Merge(older, newer) == [newer[0]] + Merge(older[1..], newer[1..])
  {
    if |newer| == 0 {
      assert Merge(older[1..], newer) == older[1..];
    }
  }

  /** Which record comes next of what is left of a page and of the additional records. */
  function PageNext(page: seq<Rec>, extra: seq<Rec>, i: nat, j: nat): (r: (Rec, nat, nat))
    requires i < |page| && j <= |extra|
    ensures r.1 <= |page| && r.2 <= |extra| && i <= r.1 && j <= r.2 && r.1 + r.2 > i + j
  {
    if j == |extra| || page[i].key < extra[j].key then (page[i], i + 1, j)
    else if page[i].key == extra[j].key then (extra[j], i + 1, j + 1)
    else (extra[j], i, j + 1)
  }

  lemma PageNextMerges(page: seq<Rec>, later: seq<Rec>, extra: seq<Rec>, i: nat, j: nat, out: seq<Rec>)
    requires i < |page| && j <= |extra|
    ensures var (x, i', j') := PageNext(page, extra, i, j);
            out + Merge(page[i..] + later, extra[j..]) == (out + [x]) + Merge(page[i'..] + later, extra[j'..])
  {
    var older := page[i..] + later;
    MergeStep(older, extra[j..]);
    assert older[1..] == page[i + 1..] + later;
    if j < |extra| {
      assert extra[j..][1..] == extra[j + 1..];
    }
  }

  /** Feeds one page and the additional records that come before its last key. */
  method MergePage(page: seq<Rec>, later: seq<Rec>, extra: seq<Rec>, start: nat) returns (out: seq<Rec>, next: nat)
    requires start <= |extra|
    ensures start <= next <= |extra|
    ensures Merge(page + later, extra[start..]) == out + Merge(later, extra[next..])
  {
    out, next := [], start;
    var i: nat := 0;
    assert page[0..] == page;
    while i < |page|
      invariant i <= |page| && start <= next <= |extra|
      invariant Merge(page + later, extra[start..]) == out + Merge(page[i..] + later, extra[next..])
      decreases |page| - i + |extra| - next
    {
      PageNextMerges(page, later, extra, i, next, out);
      var (record, i', next') := PageNext(page, extra, i, next);
      out, i, next := out + [record], i', next';
    }
    assert page[i..] + later == later;
  }

  /** Feeds the pages in order, with the additional records that come before the last key. */
  method MergePages(pages: seq<seq<Rec>>, extra: seq<Rec>) returns (out: seq<Rec>, next: nat)
    ensures next <= |extra| && Merge(PageRecords(pages), extra) == out + extra[next..]
  {
    out, next := [], 0;
    assert pages[0..] == pages && extra[0..] == extra;
    for p := 0 to |pages|
      invariant next <= |extra|
      invariant Merge(PageRecords(pages), extra) == out + Merge(PageRecords(pages[p..]), extra[next..])
    {
      FlattenFrom(pages, p);
      var more, after := MergePage(pages[p], PageRecords(pages[p + 1..]), extra, next);
      out, next := out + more, after;
    }
    assert pages[|pages|..] == [];
  }

  lemma FlattenFrom(pages: seq<seq<Rec>>, p: nat)
    requires p < |pages|
    ensures PageRecords(pages[p..]) == pages[p] + PageRecords(pages[p + 1..])
  {
    assert pages[p..][0] == pages[p] && pages[p..][1..] == pages[p + 1..];
  }

  /** Feeds every page of a region in order, then what is left of the additional records. */
  method MergeRegion(pages: seq<seq<Rec>>, extra: seq<Rec>) returns (out: seq<Rec>)
    ensures out == Merge(PageRecords(pages), extra)
    ensures SortedRecords(PageRecords(pages)) && SortedRecords(extra) ==>
              SortedRecords(out) && RecMap(out) == RecMap(PageRecords(pages)) + RecMap(extra)
  {
    var next;
    out, next := MergePages(pages, extra);
    out := out + extra[next..];
    if SortedRecords(PageRecords(pages)) && SortedRecords(extra) {
      MergeSorted(PageRecords(pages), extra);
      MergeOverlays(PageRecords(pages), extra);
    }
  }

  // ------------------------------------------------------------ the first records of a merge

  function Take(rs: seq<Rec>, n: nat): seq<Rec> {
    if n <= |rs| then rs[..n] else rs
  }

  lemma TakeCons(r: Rec, rs: seq<Rec>, n: nat)
    requires n > 0
    ensures Take([r] + rs, n) == [r] + Take(rs, n - 1)
  {
  }

  lemma TakeTail(rs: seq<Rec>, n: nat)
    requires |rs| > 0 && n > 0
    ensures |Take(rs, n)| > 0 && Take(rs, n)[0] == rs[0] && Take(rs, n)[1..] == Take(rs[1..], n - 1)
  {
  }

  /** A little more of an input does not change the first records of a merge. */
  lemma {:induction false} MergeTakeMore(older: seq<Rec>, newer: seq<Rec>, m: nat, k: nat, n: nat)
    requires n <= m && n <= k
    ensures Take(Merge(Take(older, m), Take(newer, k)), n) == Take(Merge(older, newer), n)
    decreases n, |older| + |newer|
  {
    if n == 0 {
      assert Take(Merge(older, newer), 0) == [] == Take(Merge(Take(older, m), Take(newer, k)), 0);
    } else if |older| == 0 {
      assert Take(Take(newer, k), n) == Take(newer, n);
    } else if |newer| == 0 {
      assert Take(Take(older, m), n) == Take(older, n);
    } else {
      MergeTakeStep(older, newer, m, k, n);
    }
  }

  lemma {:induction false} MergeTakeStep(older: seq<Rec>, newer: seq<Rec>, m: nat, k: nat, n: nat)
    requires 0 < n <= m && n <= k && |older| > 0 && |newer| > 0
    ensures Take(Merge(Take(older, m), Take(newer, k)), n) == Take(Merge(older, newer), n)
    decreases n, |older| + |newer|, 0
  {
    var a, b := Take(older, m), Take(newer, k);
    TakeTail(older, m);
    TakeTail(newer, k);
    MergeStep(older, newer);
    MergeStep(a, b);
    if newer[0].key == older[0].key {
      MergeTakeMore(older[1..], newer[1..], m - 1, k - 1, n - 1);
      TakeCons(newer[0], Merge(older[1..], newer[1..]), n);
      TakeCons(newer[0], Merge(a[1..], b[1..]), n);
    } else if newer[0].key < older[0].key {
      MergeTakeMore(older, newer[1..], m, k - 1, n - 1);
      TakeCons(newer[0], Merge(older, newer[1..]), n);
      TakeCons(newer[0], Merge(a, b[1..]), n);
    } else {
      MergeTakeMore(older[1..], newer, m - 1, k, n - 1);
      TakeCons(older[0], Merge(older[1..], newer), n);
      TakeCons(older[0], Merge(a[1..], b), n);
    }
  }

  /** Merging the first `n` records of each side gives the first `n` records of the whole merge. */
  lemma MergeTake(older: seq<Rec>, newer: seq<Rec>, n: nat)
    ensures Take(Merge(Take(older, n), Take(newer, n)), n) == Take(Merge(older, newer), n)
  {
    MergeTakeMore(older, newer, n, n, n);
  }

  /**
   * The first `n` records of the cache over the disk, from the first `n` of each. `unlocked` lists the cache
   * entries in the order in which their locks are given back.
   */
  method GetRange(disk: seq<Rec>, cache: seq<Rec>, n: nat) returns (out: seq<Rec>, unlocked: seq<nat>)
    ensures out == Take(Merge(disk, cache), n)
    ensures |unlocked| == |cache| && forall i | 0 <= i < |cache| :: unlocked[i] == i
  {
    out, unlocked := [], [];
    var c: nat, d: nat, left: nat := 0, 0, n;
    assert disk[0..] == disk && cache[0..] == cache;
    while left > 0 && c < |cache| && d < |disk|
      invariant c <= |cache| && d <= |disk|
      invariant Take(Merge(disk, cache), n) == out + Take(Merge(disk[d..], cache[c..]), left)
      invariant |unlocked| == c && forall i | 0 <= i < c :: unlocked[i] == i
      decreases left
    {
      RangeNextTakes(disk, cache, d, c, left, out);
      if cache[c].key <= disk[d].key {
        out, unlocked := out + [cache[c]], unlocked + [c];
        if cache[c].key == disk[d].key {
          d := d + 1;
        }
        c := c + 1;
      } else {
        out, d := out + [disk[d]], d + 1;
      }
      left := left - 1;
    }
    out, unlocked := FinishRange(disk, cache, d, c, left, out, unlocked);
  }

  lemma RangeNextTakes(disk: seq<Rec>, cache: seq<Rec>, d: nat, c: nat, left: nat, out: seq<Rec>)
    requires d < |disk| && c < |cache| && left > 0
    ensures var (x, d', c') := PageNext(disk, cache, d, c);
            out + Take(Merge(disk[d..], cache[c..]), left) == (out + [x]) + Take(Merge(disk[d'..], cache[c'..]), left - 1)
  {
    var (x, d', c') := PageNext(disk, cache, d, c);
    PageNextMerges(disk, [], cache, d, c, []);
    assert disk[d..] + [] == disk[d..] && disk[d'..] + [] == disk[d'..];
    var m := Merge(disk[d'..], cache[c'..]);
    assert Merge(disk[d..], cache[c..]) == [x] + m;
    TakeCons(x, m, left);
  }

  /** The rest of one side, and the remaining locks. */
  method FinishRange(disk: seq<Rec>, cache: seq<Rec>, d: nat, c: nat, left: nat, before: seq<Rec>, given: seq<nat>)
    returns (out: seq<Rec>, unlocked: seq<nat>)
    requires c <= |cache| && d <= |disk| && (left == 0 || c == |cache| || d == |disk|)
    requires |given| == c && forall i | 0 <= i < c :: given[i] == i
    ensures out == before + Take(Merge(disk[d..], cache[c..]), left)
    ensures |unlocked| == |cache| && forall i | 0 <= i < |cache| :: unlocked[i] == i
  {
    var i, j, rest := c, d, left;
    out, unlocked := before, given;
    while rest > 0 && i < |cache|
      invariant c <= i <= |cache| && rest + (i - c) == left && rest >= 0
      invariant out == before + cache[c..i]
      invariant |unlocked| == i && forall k | 0 <= k < i :: unlocked[k] == k
      decreases rest
    {
      out, unlocked, i, rest := out + [cache[i]], unlocked + [i], i + 1, rest - 1;
    }
    ghost var half := out;
    while rest > 0 && j < |disk|
      invariant d <= j <= |disk| && 0 <= rest && (i - c) + (j - d) + rest == left
      invariant out == half + disk[d..j]
      decreases rest
    {
      out, j, rest := out + [disk[j]], j + 1, rest - 1;
    }
    while i < |cache|
      invariant |unlocked| == i <= |cache| && forall k | 0 <= k < i :: unlocked[k] == k
    {
      unlocked, i := unlocked + [i], i + 1;
    }
  }
}
