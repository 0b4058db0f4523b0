// Forward scans over segments and pages, on a store that nobody else is changing.
module StoreScan {
  import opened Bytes
  import opened Coding
  import opened Plr
  import opened KeyMapping
  import opened SegmentModel
  import opened RecordMerge
  import opened PageMerge

  /** The records of each page as its iterator yields them. */
  function RowsOf(chains: seq<Chain>): (pages: seq<seq<Rec>>)
    ensures |pages| == |chains|
  {
    seq(|chains|, p requires 0 <= p < |chains| => Rows(chains[p]))
  }

  /** A segment on disk: its pages, each with its overflow page. */
  datatype Stored = Stored(base: Key, limit: Key, model: Option<Line>, chains: seq<Chain>) {
    const pages: seq<seq<Rec>> := RowsOf(chains)
  }

  /** The records that a key range and a page can hold. */
  ghost predicate PageOk(s: Stored, p: nat, page: seq<Rec>)
    requires |s.pages| > 0 && (|s.pages| > 1 ==> s.model.Some?)
  {
    forall i | 0 <= i < |page| ::
      s.base <= page[i].key < s.limit && SegmentPage(s.base, s.model, |s.pages|, page[i].key) == p
  }

  ghost predicate StoredOk(s: Stored) {
    && |s.pages| > 0 && s.base < s.limit && (|s.pages| > 1 ==> s.model.Some? && s.model.value.slope > 0.0)
    && forall p | 0 <= p < |s.pages| :: ChainOk(s.chains[p]) && PageOk(s, p, s.pages[p])
  }

  /** Segments in key order without gaps. */
  ghost predicate StoreOk(store: seq<Stored>) {
    && |store| > 0 && store[0].base == 0
    && (forall i | 0 <= i < |store| :: StoredOk(store[i]))
    && (forall i | 0 <= i < |store| - 1 :: store[i].limit == store[i + 1].base)
  }

  /** All the records of some segments, in order. */
  function AllOf(store: seq<Stored>): seq<Rec> {
    if |store| == 0 then [] else PageRecords(store[0].pages) + AllOf(store[1..])
  }

  // ------------------------------------------------------------ order of pages and segments

  lemma FlattenAll(pages: seq<seq<Rec>>, n: nat)
    requires n <= |pages|
    ensures PageRecords(pages) == PageRecords(pages[..n]) + PageRecords(pages[n..])
    decreases n
  {
    if n == 0 {
      assert pages[..0] == [] && pages[0..] == pages;
    } else {
      FlattenAll(pages[1..], n - 1);
      assert pages[..n][1..] == pages[1..][..n - 1] && pages[n..] == pages[1..][n - 1..];
    }
  }

  lemma {:induction false} PagesBefore(pages: seq<seq<Rec>>, k: Key)
    requires forall p | 0 <= p < |pages| :: Before(pages[p], k)
    ensures Before(PageRecords(pages), k)
    decreases |pages|
  {
    if |pages| > 0 {
      PagesBefore(pages[1..], k);
    }
  }

  lemma {:induction false} PagesNotBefore(pages: seq<seq<Rec>>, k: Key)
    requires forall p | 0 <= p < |pages| :: NotBefore(pages[p], k)
    ensures NotBefore(PageRecords(pages), k)
    decreases |pages|
  {
    if |pages| > 0 {
      PagesNotBefore(pages[1..], k);
    }
  }

  /** Earlier pages hold smaller keys and later pages larger ones. */
  lemma PageSides(s: Stored, k: Key, p: nat)
    requires StoredOk(s) && s.base <= k && p < |s.pages|
    ensures p < SegmentPage(s.base, s.model, |s.pages|, k) ==> Before(s.pages[p], k)
    ensures p > SegmentPage(s.base, s.model, |s.pages|, k) ==> NotBefore(s.pages[p], k)
  {
    assert PageOk(s, p, s.pages[p]);
    forall i | 0 <= i < |s.pages[p]|
      ensures p < SegmentPage(s.base, s.model, |s.pages|, k) ==> s.pages[p][i].key < k
      ensures p > SegmentPage(s.base, s.model, |s.pages|, k) ==> k <= s.pages[p][i].key
    {
      var key := s.pages[p][i].key;
      if |s.pages| > 1 {
        if key < k {
          PageMonotone(s.model.value, |s.pages|, key - s.base, k - s.base);
        } else {
          PageMonotone(s.model.value, |s.pages|, k - s.base, key - s.base);
        }
      }
    }
  }

  lemma {:induction false} AllSplit(store: seq<Stored>, n: nat)
    requires n <= |store|
    ensures AllOf(store) == AllOf(store[..n]) + AllOf(store[n..])
    decreases n
  {
    if n == 0 {
      assert store[..0] == [] && store[0..] == store;
    } else {
      AllSplit(store[1..], n - 1);
      assert store[..n][1..] == store[1..][..n - 1] && store[n..] == store[1..][n - 1..];
    }
  }

  lemma {:induction false} LimitsAscend(store: seq<Stored>, i: nat, j: nat)
    requires StoreOk(store) && i < j < |store|
    ensures store[i].limit <= store[j].base
    decreases j
  {
    if i < j - 1 {
      LimitsAscend(store, i, j - 1);
    }
    assert store[j - 1].limit == store[j].base;
  }

  lemma {:induction false} SegmentsBefore(store: seq<Stored>, k: Key)
    requires forall i | 0 <= i < |store| :: StoredOk(store[i]) && store[i].limit <= k
    ensures Before(AllOf(store), k)
    decreases |store|
  {
    if |store| > 0 {
      var s := store[0];
      forall p | 0 <= p < |s.pages|
        ensures Before(s.pages[p], k)
      {
        assert PageOk(s, p, s.pages[p]);
      }
      PagesBefore(s.pages, k);
      SegmentsBefore(store[1..], k);
    }
  }

  lemma {:induction false} SegmentsNotBefore(store: seq<Stored>, k: Key)
    requires forall i | 0 <= i < |store| :: StoredOk(store[i]) && k <= store[i].base
    ensures NotBefore(AllOf(store), k)
    decreases |store|
  {
    if |store| > 0 {
      var s := store[0];
      forall p | 0 <= p < |s.pages|
        ensures NotBefore(s.pages[p], k)
      {
        assert PageOk(s, p, s.pages[p]);
      }
      PagesNotBefore(s.pages, k);
      SegmentsNotBefore(store[1..], k);
    }
  }

  /** What is left of the store behind page `p` of segment `i`. */
  function Behind(store: seq<Stored>, i: nat, p: nat): seq<Rec>
    requires i < |store| && p <= |store[i].pages|
  {
    PageRecords(store[i].pages[p..]) + AllOf(store[i + 1..])
  }

  lemma BehindNext(store: seq<Stored>, i: nat, p: nat)
    requires i < |store| && p < |store[i].pages|
    ensures Behind(store, i, p) == store[i].pages[p] + Behind(store, i, p + 1)
  {
    FlattenFrom(store[i].pages, p);
  }

  lemma BehindSegment(store: seq<Stored>, i: nat)
    requires i < |store|
    ensures Behind(store, i, |store[i].pages|) == AllOf(store[i + 1..])
  {
    assert store[i].pages[|store[i].pages|..] == [];
  }

  lemma StoreParts(store: seq<Stored>, i: nat, p: nat)
    requires i < |store| && p < |store[i].pages|
    ensures AllOf(store) == (AllOf(store[..i]) + PageRecords(store[i].pages[..p])) + (store[i].pages[p] + Behind(store, i, p + 1))
  {
    var pages := store[i].pages;
    AllSplit(store, i);
    assert store[i..][0] == store[i] && store[i..][1..] == store[i + 1..];
    FlattenAll(pages, p);
    FlattenFrom(pages, p);
    Regroup(AllOf(store[..i]), PageRecords(pages[..p]), pages[p], PageRecords(pages[p + 1..]), AllOf(store[i + 1..]));
  }

  lemma Regroup(a: seq<Rec>, b: seq<Rec>, c: seq<Rec>, d: seq<Rec>, e: seq<Rec>)
    ensures a + ((b + (c + d)) + e) == (a + b) + (c + (d + e))
  {
  }

  /** A scan from `k` begins in the segment and page that `k` belongs to. */
  lemma WhereScansStart(store: seq<Stored>, i: nat, p: nat, k: Key)
    requires StoreOk(store) && i < |store| && store[i].base <= k < store[i].limit
    requires p == SegmentPage(store[i].base, store[i].model, |store[i].pages|, k)
    ensures FromKey(AllOf(store), k) == FromKey(store[i].pages[p], k) + Behind(store, i, p + 1)
  {
    var page, later := store[i].pages[p], Behind(store, i, p + 1);
    var before := AllOf(store[..i]) + PageRecords(store[i].pages[..p]);
    StoreParts(store, i, p);
    StartSkips(store, i, p, k);
    StartKeeps(store, i, p, k);
    FromKeySkips(before, page + later, k);
    FromKeyKeeps(page, later, k);
  }

  lemma StartSkips(store: seq<Stored>, i: nat, p: nat, k: Key)
    requires StoreOk(store) && i < |store| && store[i].base <= k < store[i].limit
    requires p == SegmentPage(store[i].base, store[i].model, |store[i].pages|, k)
    ensures Before(AllOf(store[..i]) + PageRecords(store[i].pages[..p]), k)
  {
    forall j | 0 <= j < i
      ensures StoredOk(store[..i][j]) && store[..i][j].limit <= k
    {
      LimitsAscend(store, j, i);
    }
    SegmentsBefore(store[..i], k);
    forall q | 0 <= q < p
      ensures Before(store[i].pages[..p][q], k)
    {
      PageSides(store[i], k, q);
    }
    PagesBefore(store[i].pages[..p], k);
  }

  lemma StartKeeps(store: seq<Stored>, i: nat, p: nat, k: Key)
    requires StoreOk(store) && i < |store| && store[i].base <= k < store[i].limit
    requires p == SegmentPage(store[i].base, store[i].model, |store[i].pages|, k)
    ensures NotBefore(Behind(store, i, p + 1), k)
  {
    var later, pages := store[i + 1..], store[i].pages[p + 1..];
    forall j | 0 <= j < |later|
      ensures StoredOk(later[j]) && k <= later[j].base
    {
      LimitsAscend(store, i, i + 1 + j);
    }
    SegmentsNotBefore(later, k);
    forall q | 0 <= q < |pages|
      ensures NotBefore(pages[q], k)
    {
      PageSides(store[i], k, p + 1 + q);
    }
    PagesNotBefore(pages, k);
  }

  // ------------------------------------------------------------ key order

  lemma InOrderConcat(a: seq<Rec>, b: seq<Rec>)
    requires InOrder(a) && InOrder(b) && forall i | 0 <= i < |a| :: NotBefore(b, a[i].key)
    ensures InOrder(a + b)
  {
  }

  /** Everything behind a page has no smaller key than any record of it. */
  lemma BehindPage(store: seq<Stored>, i: nat, p: nat)
    requires StoreOk(store) && i < |store| && p < |store[i].pages|
    ensures forall j | 0 <= j < |store[i].pages[p]| :: NotBefore(Behind(store, i, p + 1), store[i].pages[p][j].key)
  {
    assert PageOk(store[i], p, store[i].pages[p]);
    forall j | 0 <= j < |store[i].pages[p]|
      ensures NotBefore(Behind(store, i, p + 1), store[i].pages[p][j].key)
    {
      StartKeeps(store, i, p, store[i].pages[p][j].key);
    }
  }

  lemma {:induction false} BehindInOrder(store: seq<Stored>, i: nat, p: nat)
    requires StoreOk(store) && i < |store| && p <= |store[i].pages|
    ensures InOrder(Behind(store, i, p))
    decreases |store| - i, |store[i].pages| - p
  {
    if p < |store[i].pages| {
      BehindInOrder(store, i, p + 1);
      BehindNext(store, i, p);
      BehindPage(store, i, p);
      assert ChainOk(store[i].chains[p]);
      MergedInOrder(store[i].chains[p].main, store[i].chains[p].over);
      InOrderConcat(store[i].pages[p], Behind(store, i, p + 1));
    } else {
      BehindSegment(store, i);
      if i + 1 < |store| {
        BehindInOrder(store, i + 1, 0);
        FromSegment(store, i + 1);
      } else {
        assert store[i + 1..] == [];
      }
    }
  }

  /** The records of a store are in key order. */
  lemma StoreInOrder(store: seq<Stored>)
    requires StoreOk(store)
    ensures InOrder(AllOf(store))
  {
    BehindInOrder(store, 0, 0);
    FromSegment(store, 0);
    assert store[0..] == store;
  }

  ghost predicate NothingShared(store: seq<Stored>) {
    forall i, p | 0 <= i < |store| && 0 <= p < |store[i].chains| :: Unshared(store[i].chains[p].main, store[i].chains[p].over)
  }

  /**
   * `all` is exactly the records at or above `k` in key order. Two that share a key may be swapped, and if no
   * page shares a key with its overflow page they are the end of the store.
   */
  ghost predicate ScanOf(store: seq<Stored>, k: Key, all: seq<Rec>) {
    && InOrder(all) && NotBefore(all, k)
    && multiset(all) == multiset(FromKey(AllOf(store), k))
    && (NothingShared(store) ==> all == FromKey(AllOf(store), k))
  }

  /** A page from the key on, with two records perhaps swapped, and what is behind the page. */
  lemma JoinScan(page: seq<Rec>, first: seq<Rec>, later: seq<Rec>, k: Key)
    requires InOrder(page) && InOrder(first) && NotBefore(first, k) && multiset(first) == multiset(FromKey(page, k))
    requires InOrder(later) && NotBefore(later, k) && forall j | 0 <= j < |page| :: NotBefore(later, page[j].key)
    ensures InOrder(first + later) && NotBefore(first + later, k)
    ensures multiset(first + later) == multiset(FromKey(page, k) + later)
  {
    FirstBeforeLater(page, first, later, k);
    InOrderConcat(first, later);
  }

  /** The first page from the key on, and everything behind it, are the records at or above the key. */
  lemma ScanIsOf(store: seq<Stored>, i: nat, p: nat, k: Key)
    requires StoreOk(store) && i < |store| && store[i].base <= k < store[i].limit
    requires p == SegmentPage(store[i].base, store[i].model, |store[i].pages|, k)
    ensures ScanOf(store, k, RowsFrom(store[i].chains[p], k) + Behind(store, i, p + 1))
  {
    var c, page, later := store[i].chains[p], store[i].pages[p], Behind(store, i, p + 1);
    assert ChainOk(c) && page == Rows(c);
    WhereScansStart(store, i, p, k);
    MergedInOrder(c.main, c.over);
    RowsFromKey(c, k);
    RowsFromInOrder(c, k);
    StartKeeps(store, i, p, k);
    BehindInOrder(store, i, p + 1);
    BehindPage(store, i, p);
    JoinScan(page, RowsFrom(c, k), later, k);
    assert NothingShared(store) ==> Unshared(c.main, c.over);
  }

  /** The end of a store from the key on is such a sequence. */
  lemma EndIsScan(store: seq<Stored>, k: Key)
    requires StoreOk(store)
    ensures ScanOf(store, k, FromKey(AllOf(store), k))
  {
    StoreInOrder(store);
    var n := FromKeySplits(AllOf(store), k);
  }

  lemma FirstBeforeLater(page: seq<Rec>, first: seq<Rec>, later: seq<Rec>, k: Key)
    requires InOrder(page) && multiset(first) == multiset(FromKey(page, k))
    requires forall j | 0 <= j < |page| :: NotBefore(later, page[j].key)
    ensures forall j | 0 <= j < |first| :: NotBefore(later, first[j].key)
  {
    var n := FromKeySplits(page, k);
    forall j | 0 <= j < |first|
      ensures NotBefore(later, first[j].key)
    {
      assert first[j] in multiset(first) && first[j] in page[n..];
    }
  }

  // ------------------------------------------------------------ scanning

  /** A shared lock on a page. */
  datatype PageLock = PageLock(segment: nat, page: nat)

  lemma TakeParts(a: seq<Rec>, b: seq<Rec>, n: nat)
    ensures Take(a + b, n) == Take(a, n) + Take(b, n - |Take(a, n)|)
  {
  }

  /** The records that are still wanted from page `p` of segment `i` on. */
  function Pending(store: seq<Stored>, i: nat, p: nat, left: nat): (r: seq<Rec>)
    requires i < |store| && p <= |store[i].pages|
    ensures left == 0 ==> r == []
  {
    Take(Behind(store, i, p), left)
  }

  lemma PageStep(store: seq<Stored>, i: nat, p: nat, out: seq<Rec>, left: nat)
    requires i < |store| && p < |store[i].pages|
    ensures var taken := Take(store[i].pages[p], left);
            out + Pending(store, i, p, left) == (out + taken) + Pending(store, i, p + 1, left - |taken|)
  {
    BehindNext(store, i, p);
    TakeParts(store[i].pages[p], Behind(store, i, p + 1), left);
  }

  /** Appends the records of a page and its overflow page while any are wanted. */
  method ScanRows(c: Chain, start: Option<Key>, ghost page: seq<Rec>, out: seq<Rec>, left: nat)
    returns (out': seq<Rec>, left': nat)
    requires page == if start.None? then Rows(c) else RowsFrom(c, start.value)
    ensures out' == out + Take(page, left) && left' == left - |Take(page, left)|
  {
    out', left' := out, left;
    var it := new PageMergeIterator(c, start);
    ghost var i := 0;
    while left' > 0 && it.HasNext()
      invariant fresh(it) && it.Valid() && i <= |page| && it.Rest() == page[i..]
      invariant left' + i == left && out' == out + page[..i]
      decreases left'
    {
      out', left' := out' + [it.Current()], left' - 1;
      it.Next();
      i := i + 1;
    }
  }

  /** Scans a page that is locked. */
  method ScanPage(store: seq<Stored>, i: nat, p: nat, held: set<PageLock>, out: seq<Rec>, left: nat)
    returns (out': seq<Rec>, left': nat)
    requires i < |store| && p < |store[i].pages| && PageLock(i, p) in held
    ensures out' == out + Take(store[i].pages[p], left) && left' == left - |Take(store[i].pages[p], left)|
  {
    out', left' := ScanRows(store[i].chains[p], None, store[i].pages[p], out, left);
  }

  /** Scans a page that is locked from a key on. */
  method ScanPageFrom(store: seq<Stored>, i: nat, p: nat, held: set<PageLock>, k: Key, left: nat)
    returns (out: seq<Rec>, left': nat)
    requires i < |store| && p < |store[i].pages| && PageLock(i, p) in held
    ensures out == Take(RowsFrom(store[i].chains[p], k), left) && left' == left - |out|
  {
    out, left' := ScanRows(store[i].chains[p], Some(k), RowsFrom(store[i].chains[p], k), [], left);
  }

  function LocksOf(i: nat, from: nat, end: nat): set<PageLock> {
    set p | from <= p < end :: PageLock(i, p)
  }

  lemma HasLock(i: nat, p: nat, end: nat)
    requires p < end
    ensures PageLock(i, p) in LocksOf(i, p, end)
  {
  }

  method LockPages(i: nat, from: nat, end: nat, held: set<PageLock>) returns (held': set<PageLock>)
    requires from <= end
    ensures held' == held + LocksOf(i, from, end)
  {
    held' := held;
    for p := from to end
      invariant held' == held + LocksOf(i, from, p)
    {
      held' := held' + {PageLock(i, p)};
    }
  }

  /** Scans pages that are locked, and gives all their locks back. */
  method ScanLocked(store: seq<Stored>, i: nat, from: nat, end: nat, out: seq<Rec>, left: nat, held: set<PageLock>)
    returns (out': seq<Rec>, left': nat, held': set<PageLock>)
    requires i < |store| && from <= end <= |store[i].pages| && held == LocksOf(i, from, end)
    ensures out' + Pending(store, i, end, left') == out + Pending(store, i, from, left)
    ensures held' == {}
  {
    ghost var target := out + Pending(store, i, from, left);
    out', left', held' := out, left, held;
    var p: nat := from;
    while left' > 0 && p < end
      invariant from <= p <= end
      invariant held' == LocksOf(i, p, end)
      invariant out' + Pending(store, i, p, left') == target
      decreases end - p
    {
      PageStep(store, i, p, out', left');
      HasLock(i, p, end);
      out', left' := ScanPage(store, i, p, held', out', left');
      held' := UnlockPage(i, p, end, held');
      p := p + 1;
    }
    held' := UnlockPages(i, p, end, held');
  }

  method UnlockPages(i: nat, from: nat, end: nat, held: set<PageLock>) returns (held': set<PageLock>)
    requires from <= end && held == LocksOf(i, from, end)
    ensures held' == {}
  {
    held' := held;
    for p := from to end
      invariant held' == LocksOf(i, p, end)
    {
      held' := UnlockPage(i, p, end, held');
    }
  }

  method UnlockPage(i: nat, p: nat, end: nat, held: set<PageLock>) returns (held': set<PageLock>)
    requires p < end && held == LocksOf(i, p, end)
    ensures held' == LocksOf(i, p + 1, end)
  {
    held' := held - {PageLock(i, p)};
  }

  /** Scans the remaining pages of a segment one at a time. */
  method ScanMore(store: seq<Stored>, i: nat, from: nat, out: seq<Rec>, left: nat)
    returns (out': seq<Rec>, left': nat, held: set<PageLock>)
    requires i < |store| && from <= |store[i].pages|
    ensures out' + Pending(store, i, |store[i].pages|, left') == out + Pending(store, i, from, left)
    ensures held == {}
  {
    out', left', held := out, left, {};
    var p := from;
    while left' > 0 && p < |store[i].pages|
      invariant from <= p <= |store[i].pages| && held == {}
      invariant out' + Pending(store, i, p, left') == out + Pending(store, i, from, left)
      decreases |store[i].pages| - p
    {
      held := held + {PageLock(i, p)};
      PageStep(store, i, p, out', left');
      out', left' := ScanPage(store, i, p, held, out', left');
      held := held - {PageLock(i, p)};
      p := p + 1;
    }
  }

  /** Reads ahead as many pages as estimated, then as many more as it takes. */
  method ScanFrom(store: seq<Stored>, i: nat, from: nat, end: nat, out: seq<Rec>, left: nat, held: set<PageLock>)
    returns (out': seq<Rec>, left': nat, held': set<PageLock>)
    requires i < |store| && from <= end <= |store[i].pages| && held == LocksOf(i, from, end)
    ensures out' + Wanted(store, i + 1, left') == out + Pending(store, i, from, left)
    ensures held' == {}
  {
    out', left', held' := ScanLocked(store, i, from, end, out, left, held);
    out', left', held' := ScanMore(store, i, end, out', left');
    BehindSegment(store, i);
  }

  /** The number of pages that `left` records are expected to take. */
  function PagesFor(left: nat, goal: nat): nat
    requires goal > 0
  {
    (left + goal - 1) / goal
  }

  /** The records that are still wanted of the segments from `next` on. */
  function Wanted(store: seq<Stored>, next: nat, left: nat): (r: seq<Rec>)
    requires next <= |store|
    ensures left == 0 || next == |store| ==> r == []
  {
    NothingLeft(store, next, left);
    Take(AllOf(store[next..]), left)
  }

  /** Scans one whole segment, as far as needed. */
  method ScanSegment(store: seq<Stored>, i: nat, goal: nat, whole: bool, out: seq<Rec>, left: nat)
    returns (out': seq<Rec>, left': nat, held: set<PageLock>)
    requires i < |store| && goal > 0
    ensures out' + Wanted(store, i + 1, left') == out + Wanted(store, i, left)
    ensures held == {}
  {
    var count := |store[i].pages|;
    var read := if whole then count else Min(count, PagesFor(left, goal));
    held := LockPages(i, 0, read, {});
    FromSegment(store, i);
    out', left', held := ScanFrom(store, i, 0, read, out, left, held);
  }

  lemma FromSegment(store: seq<Stored>, i: nat)
    requires i < |store|
    ensures AllOf(store[i..]) == Behind(store, i, 0)
  {
    assert store[i..][0] == store[i] && store[i..][1..] == store[i + 1..] && store[i].pages[0..] == store[i].pages;
  }

  /** Goes on with the segments behind `i`, as far as needed. */
  method ScanRest(store: seq<Stored>, i: nat, goal: nat, whole: bool, out: seq<Rec>, left: nat)
    returns (out': seq<Rec>, held: set<PageLock>)
    requires i < |store| && goal > 0
    ensures out' == out + Wanted(store, i + 1, left)
    ensures held == {}
  {
    ghost var target := out + Wanted(store, i + 1, left);
    out', held := out, {};
    var next: nat, left': nat := i + 1, left;
    while left' > 0 && next < |store|
      invariant i < next <= |store| && held == {}
      invariant out' + Wanted(store, next, left') == target
      decreases |store| - next
    {
      out', left', held := ScanSegment(store, next, goal, whole, out', left');
      next := next + 1;
    }
  }

  lemma NothingLeft(store: seq<Stored>, next: nat, left: nat)
    requires next <= |store|
    ensures left == 0 || next == |store| ==> Take(AllOf(store[next..]), left) == []
  {
    if next == |store| {
      assert store[next..] == [];
    }
  }

  /** The segment that a key belongs to. */
  method Locate(store: seq<Stored>, k: Key) returns (i: nat)
    requires StoreOk(store) && k < store[|store| - 1].limit
    ensures i < |store| && store[i].base <= k < store[i].limit
  {
    i := 0;
    while store[i].limit <= k
      invariant i < |store| && store[i].base <= k
      decreases |store| - i
    {
      assert store[i].limit == store[i + 1].base;
      i := i + 1;
    }
  }

  /** Scans the first segment from the key on. */
  method ScanFirst(store: seq<Stored>, i: nat, p: nat, k: Key, amount: nat, read: nat)
    returns (out: seq<Rec>, left: nat, held: set<PageLock>)
    requires i < |store| && p < |store[i].pages| && 1 <= read && p + read <= |store[i].pages|
    ensures out + Wanted(store, i + 1, left)
            == Take(RowsFrom(store[i].chains[p], k) + Behind(store, i, p + 1), amount)
    ensures held == {}
  {
    ghost var page := RowsFrom(store[i].chains[p], k);
    TakeParts(page, Behind(store, i, p + 1), amount);
    held := LockPages(i, p, p + read, {});
    assert {} + LocksOf(i, p, p + read) == LocksOf(i, p, p + read);
    HasLock(i, p, p + read);
    out, left := ScanPageFrom(store, i, p, held, k, amount);
    held := UnlockPage(i, p, p + read, held);
    out, left, held := ScanFrom(store, i, p + 1, p + read, out, left, held);
  }

  /** Scans the first page from the key on, and then everything behind it. */
  method ScanStarting(store: seq<Stored>, i: nat, p: nat, k: Key, amount: nat, goal: nat, read: nat, whole: bool)
    returns (out: seq<Rec>, held: set<PageLock>, ghost all: seq<Rec>)
    requires StoreOk(store) && i < |store| && store[i].base <= k < store[i].limit && goal > 0
    requires p == SegmentPage(store[i].base, store[i].model, |store[i].pages|, k) && 1 <= read && p + read <= |store[i].pages|
    ensures ScanOf(store, k, all) && out == Take(all, amount) && held == {}
  {
    ScanIsOf(store, i, p, k);
    all := RowsFrom(store[i].chains[p], k) + Behind(store, i, p + 1);
    var left;
    out, left, held := ScanFirst(store, i, p, k, amount, read);
    out, held := ScanRest(store, i, goal, whole, out, left);
  }

  /** Reads whole segments. */
  method ScanWhole(store: seq<Stored>, k: Key, amount: nat, goal: nat)
    returns (out: seq<Rec>, held: set<PageLock>, ghost all: seq<Rec>)
    requires StoreOk(store) && k < store[|store| - 1].limit && goal > 0
    ensures ScanOf(store, k, all) && out == Take(all, amount) && held == {}
  {
    if amount == 0 {
      EndIsScan(store, k);
      return [], {}, FromKey(AllOf(store), k);
    }
    var i := Locate(store, k);
    var s := store[i];
    var p := SegmentPage(s.base, s.model, |s.pages|, k);
    out, held, all := ScanStarting(store, i, p, k, amount, goal, |s.pages| - p, true);
  }

  /** Reads as many pages as the model suggests, and more where the suggestion was too low. */
  method ScanWithEstimates(store: seq<Stored>, k: Key, amount: nat, goal: nat)
    returns (out: seq<Rec>, held: set<PageLock>, ghost all: seq<Rec>)
    requires StoreOk(store) && k < store[|store| - 1].limit && goal > 0
    ensures ScanOf(store, k, all) && out == Take(all, amount) && held == {}
  {
    if amount == 0 {
      EndIsScan(store, k);
      return [], {}, FromKey(AllOf(store), k);
    }
    var i := Locate(store, k);
    var s := store[i];
    assert StoredOk(s);
    var count, p, read := |s.pages|, 0, 1;
    if count > 1 {
      var v := s.model.value.At((k - s.base) as real);
      var pos := if v < 0.0 then 0.0 else v;
      var page := pos.Floor;
      if page >= count {
        p := count - 1;
      } else {
        var expected := (goal as real - (pos - page as real) * goal as real).Floor;
        p := page;
        if amount > expected {
          read := 1 + Min(PagesFor(amount - expected, goal), count - page - 1);
        }
      }
    }
    out, held, all := ScanStarting(store, i, p, k, amount, goal, read, false);
  }
}
