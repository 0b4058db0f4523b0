// The records of a page and its overflow page, in key order.
module PageMerge {
  import opened Bytes
  import opened Coding
  import opened KeyMapping
  import opened SegmentModel
  import opened RecordMerge

  /** A page and its overflow page, which is empty if there is none. */
  datatype Chain = Chain(main: seq<Rec>, over: seq<Rec>)

  ghost predicate ChainOk(c: Chain) {
    SortedRecords(c.main) && SortedRecords(c.over)
  }

  /** The two share no key. */
  ghost predicate Unshared(a: seq<Rec>, b: seq<Rec>) {
    forall i, j | 0 <= i < |a| && 0 <= j < |b| :: a[i].key != b[j].key
  }

  /** Keys never go down; they may repeat. */
  ghost predicate InOrder(rs: seq<Rec>) {
    forall i, j | 0 <= i < j < |rs| :: rs[i].key <= rs[j].key
  }

  ghost predicate Before(rs: seq<Rec>, k: Key) {
    forall i | 0 <= i < |rs| :: rs[i].key < k
  }

  ghost predicate NotBefore(rs: seq<Rec>, k: Key) {
    forall i | 0 <= i < |rs| :: k <= rs[i].key
  }

  // ------------------------------------------------------------ seeking

  /** The records from the first key that is not below `k` on. */
  function FromKey(rs: seq<Rec>, k: Key): seq<Rec> {
    if |rs| == 0 || rs[0].key >= k then rs else FromKey(rs[1..], k)
  }

  lemma {:induction false} FromKeySkips(a: seq<Rec>, b: seq<Rec>, k: Key)
    requires Before(a, k)
    ensures FromKey(a + b, k) == FromKey(b, k)
    decreases |a|
  {
    if |a| == 0 {
      assert a + b == b;
    } else {
      assert (a + b)[1..] == a[1..] + b;
      FromKeySkips(a[1..], b, k);
    }
  }

  lemma {:induction false} FromKeyKeeps(b: seq<Rec>, c: seq<Rec>, k: Key)
    requires NotBefore(c, k)
    ensures FromKey(b + c, k) == FromKey(b, k) + c
    decreases |b|
  {
    if |b| == 0 {
      assert b + c == c;
    } else if b[0].key < k {
      assert (b + c)[1..] == b[1..] + c;
      FromKeyKeeps(b[1..], c, k);
    }
  }

  /** Of records in order, seeking keeps exactly those whose keys are not below `k`. */
  lemma {:induction false} FromKeySplits(rs: seq<Rec>, k: Key) returns (n: nat)
    requires InOrder(rs)
    ensures n <= |rs| && FromKey(rs, k) == rs[n..] && Before(rs[..n], k) && NotBefore(rs[n..], k)
    decreases |rs|
  {
    if |rs| == 0 || rs[0].key >= k {
      n := 0;
    } else {
      var m := FromKeySplits(rs[1..], k);
      n := m + 1;
      assert rs[1..][m..] == rs[n..];
      assert forall i | 1 <= i < n :: rs[i] == rs[1..][..m][i - 1];
    }
  }

  lemma FromKeyCounts(rs: seq<Rec>, k: Key, x: Rec)
    requires InOrder(rs)
    ensures multiset(FromKey(rs, k))[x] == if x.key < k then 0 else multiset(rs)[x]
  {
    var n := FromKeySplits(rs, k);
    assert rs == rs[..n] + rs[n..];
    assert x in rs[..n] ==> x.key < k;
    assert x in rs[n..] ==> k <= x.key;
  }

  // ------------------------------------------------------------ merging

  /**
   * What a heap of two iterators yields, with `top` on top of it. The iterator that was advanced goes back on top
   * only if its key is smaller.
   */
  function Interleave(top: seq<Rec>, other: seq<Rec>): seq<Rec>
    decreases |top| + |other|
  {
    if |top| == 0 then other
    else if |top| > 1 && (|other| == 0 || top[1].key < other[0].key) then [top[0]] + Interleave(top[1..], other)
    else [top[0]] + Interleave(other, top[1..])
  }

  /** What the heap yields when `b` was pushed after `a`. */
  function Merged(a: seq<Rec>, b: seq<Rec>): seq<Rec> {
    if |b| > 0 && (|a| == 0 || b[0].key < a[0].key) then Interleave(b, a) else Interleave(a, b)
  }

  /** The records of a chain as a scan or a rewrite sees them. */
  function Rows(c: Chain): seq<Rec> {
    Merged(c.main, c.over)
  }

  /** The records of a chain after both iterators have been moved to `k`. */
  function RowsFrom(c: Chain, k: Key): seq<Rec> {
    Merged(FromKey(c.main, k), FromKey(c.over, k))
  }

  /** The iterator on top has the smaller key, or an equal one. */
  ghost predicate Led(top: seq<Rec>, other: seq<Rec>) {
    |top| > 0 && |other| > 0 ==> top[0].key <= other[0].key
  }

  lemma {:induction false} InterleaveKeeps(top: seq<Rec>, other: seq<Rec>)
    ensures multiset(Interleave(top, other)) == multiset(top) + multiset(other)
    decreases |top| + |other|
  {
    if |top| > 0 {
      assert top == [top[0]] + top[1..];
      if |top| > 1 && (|other| == 0 || top[1].key < other[0].key) {
        InterleaveKeeps(top[1..], other);
      } else {
        InterleaveKeeps(other, top[1..]);
      }
    }
  }

  /** No record of the page or of its overflow page is lost, and none is dropped for sharing a key. */
  lemma MergedKeeps(a: seq<Rec>, b: seq<Rec>)
    ensures multiset(Merged(a, b)) == multiset(a) + multiset(b)
  {
    InterleaveKeeps(a, b);
    InterleaveKeeps(b, a);
  }

  lemma NotBeforeKept(rs: seq<Rec>, a: seq<Rec>, b: seq<Rec>, k: Key)
    requires multiset(rs) == multiset(a) + multiset(b) && NotBefore(a, k) && NotBefore(b, k)
    ensures NotBefore(rs, k)
  {
    forall i | 0 <= i < |rs|
      ensures k <= rs[i].key
    {
      assert rs[i] in multiset(rs);
      assert rs[i] in a || rs[i] in b;
    }
  }

  lemma SortedInOrder(rs: seq<Rec>)
    requires SortedRecords(rs)
    ensures InOrder(rs) && (|rs| > 0 ==> NotBefore(rs, rs[0].key) && SortedRecords(rs[1..]) && InOrder(rs[1..]))
  {
    if |rs| > 0 {
      SortedTail(rs);
    }
  }

  lemma InOrderCons(r: Rec, rest: seq<Rec>)
    requires NotBefore(rest, r.key) && InOrder(rest)
    ensures InOrder([r] + rest)
  {
  }

  /** Everything behind the record on top has no smaller key. */
  lemma RestNotBefore(top: seq<Rec>, other: seq<Rec>)
    requires SortedRecords(top) && SortedRecords(other) && Led(top, other) && |top| > 0
    ensures NotBefore(Interleave(top[1..], other), top[0].key) && NotBefore(Interleave(other, top[1..]), top[0].key)
  {
    SortedInOrder(top);
    SortedInOrder(other);
    InterleaveKeeps(top[1..], other);
    InterleaveKeeps(other, top[1..]);
    NotBeforeKept(Interleave(top[1..], other), top[1..], other, top[0].key);
    NotBeforeKept(Interleave(other, top[1..]), other, top[1..], top[0].key);
  }

  lemma {:induction false} InterleaveInOrder(top: seq<Rec>, other: seq<Rec>)
    requires SortedRecords(top) && SortedRecords(other) && Led(top, other)
    ensures InOrder(Interleave(top, other))
    decreases |top| + |other|
  {
    if |top| > 0 {
      RestNotBefore(top, other);
      if |top| > 1 && (|other| == 0 || top[1].key < other[0].key) {
        InterleaveInOrder(top[1..], other);
        InOrderCons(top[0], Interleave(top[1..], other));
      } else {
        InterleaveInOrder(other, top[1..]);
        InOrderCons(top[0], Interleave(other, top[1..]));
      }
    }
  }

  /** The records come in key order. */
  lemma MergedInOrder(a: seq<Rec>, b: seq<Rec>)
    requires SortedRecords(a) && SortedRecords(b)
    ensures InOrder(Merged(a, b))
  {
    if |b| > 0 && (|a| == 0 || b[0].key < a[0].key) {
      InterleaveInOrder(b, a);
    } else {
      InterleaveInOrder(a, b);
    }
  }

  // ------------------------------------------------------------ shared keys

  lemma SortedCons(r: Rec, rest: seq<Rec>)
    ensures SortedRecords([r] + rest) <==> SortedRecords(rest) && Beyond(rest, r.key)
  {
    var all := [r] + rest;
    assert all[1..] == rest;
    if SortedRecords(all) {
      SortedTail(all);
    }
  }

  lemma BeyondKept(rs: seq<Rec>, a: seq<Rec>, b: seq<Rec>, k: Key)
    requires multiset(rs) == multiset(a) + multiset(b)
    ensures Beyond(rs, k) <==> Beyond(a, k) && Beyond(b, k)
  {
    assert forall r :: r in multiset(rs) <==> r in a || r in b;
    if Beyond(rs, k) {
      forall i | 0 <= i < |a|
        ensures k < a[i].key
      {
        assert a[i] in multiset(rs) && a[i] in rs;
      }
      forall i | 0 <= i < |b|
        ensures k < b[i].key
      {
        assert b[i] in multiset(rs) && b[i] in rs;
      }
    } else {
      var i :| 0 <= i < |rs| && rs[i].key <= k;
      assert rs[i] in multiset(rs);
    }
  }

  /** The head on top shares its key with the other side exactly if that is the other head's. */
  lemma UnsharedTail(top: seq<Rec>, other: seq<Rec>)
    requires SortedRecords(top) && SortedRecords(other) && Led(top, other) && |top| > 0
    ensures Unshared(top, other) <==> Unshared(top[1..], other) && Beyond(other, top[0].key)
  {
    SortedTail(top);
    if Unshared(top, other) {
      forall j | 0 <= j < |other|
        ensures top[0].key < other[j].key
      {
        assert top[0].key != other[j].key;
        assert j > 0 ==> other[0].key < other[j].key;
      }
    } else if Beyond(other, top[0].key) {
      var i, j :| 0 <= i < |top| && 0 <= j < |other| && top[i].key == other[j].key;
      assert i > 0 && top[1..][i - 1] == top[i];
    }
  }

  lemma UnsharedSwap(a: seq<Rec>, b: seq<Rec>)
    ensures Unshared(a, b) <==> Unshared(b, a)
  {
  }

  lemma {:induction false} InterleaveSortedIff(top: seq<Rec>, other: seq<Rec>)
    requires SortedRecords(top) && SortedRecords(other) && Led(top, other)
    ensures SortedRecords(Interleave(top, other)) <==> Unshared(top, other)
    decreases |top| + |other|
  {
    if |top| > 0 {
      SortedTail(top);
      UnsharedTail(top, other);
      UnsharedSwap(top[1..], other);
      if |top| > 1 && (|other| == 0 || top[1].key < other[0].key) {
        InterleaveSortedIff(top[1..], other);
        InterleaveKeeps(top[1..], other);
        BeyondKept(Interleave(top[1..], other), top[1..], other, top[0].key);
        SortedCons(top[0], Interleave(top[1..], other));
      } else {
        InterleaveSortedIff(other, top[1..]);
        InterleaveKeeps(other, top[1..]);
        BeyondKept(Interleave(other, top[1..]), other, top[1..], top[0].key);
        SortedCons(top[0], Interleave(other, top[1..]));
      }
    }
  }

  /** Every key comes once if and only if the page and its overflow page share none. */
  lemma RowsSortedIff(c: Chain)
    requires ChainOk(c)
    ensures SortedRecords(Rows(c)) <==> Unshared(c.main, c.over)
  {
    UnsharedSwap(c.main, c.over);
    if |c.over| > 0 && (|c.main| == 0 || c.over[0].key < c.main[0].key) {
      InterleaveSortedIff(c.over, c.main);
    } else {
      InterleaveSortedIff(c.main, c.over);
    }
  }

  /** Sorted records are determined by which ones they are. */
  lemma {:induction false} SortedUnique(a: seq<Rec>, b: seq<Rec>)
    requires SortedRecords(a) && SortedRecords(b) && multiset(a) == multiset(b)
    ensures a == b
    decreases |a|
  {
    assert |a| == |multiset(a)| == |b|;
    if |a| > 0 {
      SameHead(a, b);
      SortedTail(a);
      SortedTail(b);
      assert a == [a[0]] + a[1..] && b == [b[0]] + b[1..];
      assert multiset(a[1..]) == multiset(a) - multiset{a[0]} == multiset(b[1..]);
      SortedUnique(a[1..], b[1..]);
    }
  }

  lemma SameHead(a: seq<Rec>, b: seq<Rec>)
    requires SortedRecords(a) && SortedRecords(b) && multiset(a) == multiset(b) && |a| > 0 && |b| > 0
    ensures a[0] == b[0]
  {
    assert a[0] in multiset(b) && b[0] in multiset(a);
    HeadIsLeast(a, b[0]);
    HeadIsLeast(b, a[0]);
  }

  lemma HeadIsLeast(rs: seq<Rec>, r: Rec)
    requires SortedRecords(rs) && r in rs
    ensures rs[0].key <= r.key && (rs[0].key == r.key ==> rs[0] == r)
  {
    var i :| 0 <= i < |rs| && rs[i] == r;
    assert i == 0 || rs[0].key < rs[i].key;
  }

  /** Without shared keys the records are those of the page overlaid by those of the overflow page. */
  lemma RowsOverlay(c: Chain)
    requires ChainOk(c) && Unshared(c.main, c.over)
    ensures RecMap(Rows(c)) == RecMap(c.main) + RecMap(c.over)
  {
    RowsSortedIff(c);
    MergeOfUnshared(c.main, c.over);
    MergedKeeps(c.main, c.over);
    MergeSorted(c.main, c.over);
    SortedUnique(Rows(c), Merge(c.main, c.over));
    MergeOverlays(c.main, c.over);
  }

  lemma {:induction false} MergeOfUnshared(older: seq<Rec>, newer: seq<Rec>)
    requires Unshared(older, newer)
    ensures multiset(Merge(older, newer)) == multiset(older) + multiset(newer)
    decreases |older| + |newer|
  {
    if |older| > 0 && |newer| > 0 {
      assert older == [older[0]] + older[1..] && newer == [newer[0]] + newer[1..];
      if newer[0].key < older[0].key {
        MergeOfUnshared(older, newer[1..]);
      } else {
        MergeOfUnshared(older[1..], newer);
      }
    }
  }

  /** An update that was spilled: both values are returned, the old one first. */
  lemma SharedKeyComesTwice()
    ensures Rows(Chain([Rec(1, [2])], [Rec(1, [3])])) == [Rec(1, [2]), Rec(1, [3])]
  {
    var a, b := [Rec(1, [2])], [Rec(1, [3])];
    assert a[1..] == [] && b[1..] == [];
    assert Interleave(b, []) == b;
    assert Interleave(a, b) == [a[0]] + Interleave(b, []);
  }

  // ------------------------------------------------------------ starting at a key

  lemma FromKeyUnshared(c: Chain, k: Key)
    requires ChainOk(c)
    ensures SortedRecords(FromKey(c.main, k)) && SortedRecords(FromKey(c.over, k))
    ensures Unshared(c.main, c.over) ==> Unshared(FromKey(c.main, k), FromKey(c.over, k))
  {
    SortedInOrder(c.main);
    SortedInOrder(c.over);
    var m := FromKeySplits(c.main, k);
    var n := FromKeySplits(c.over, k);
  }

  lemma RowsFromInOrder(c: Chain, k: Key)
    requires ChainOk(c)
    ensures InOrder(RowsFrom(c, k)) && NotBefore(RowsFrom(c, k), k)
    ensures Unshared(c.main, c.over) ==> SortedRecords(RowsFrom(c, k))
  {
    FromKeyUnshared(c, k);
    var a, b := FromKey(c.main, k), FromKey(c.over, k);
    MergedInOrder(a, b);
    MergedKeeps(a, b);
    RowsSortedIff(Chain(a, b));
    SortedInOrder(c.main);
    SortedInOrder(c.over);
    var i := FromKeySplits(c.main, k);
    var j := FromKeySplits(c.over, k);
    NotBeforeKept(Merged(a, b), a, b, k);
  }

  lemma RowsFromKeeps(c: Chain, k: Key)
    requires ChainOk(c)
    ensures multiset(RowsFrom(c, k)) == multiset(FromKey(Rows(c), k))
  {
    SortedInOrder(c.main);
    SortedInOrder(c.over);
    MergedInOrder(c.main, c.over);
    MergedKeeps(c.main, c.over);
    MergedKeeps(FromKey(c.main, k), FromKey(c.over, k));
    forall x
      ensures multiset(RowsFrom(c, k))[x] == multiset(FromKey(Rows(c), k))[x]
    {
      FromKeyCounts(c.main, k, x);
      FromKeyCounts(c.over, k, x);
      FromKeyCounts(Rows(c), k, x);
    }
  }

  /** Moving the iterators first gives the records from the key on, but may swap two that share a key. */
  lemma RowsFromKey(c: Chain, k: Key)
    requires ChainOk(c)
    ensures InOrder(RowsFrom(c, k)) && multiset(RowsFrom(c, k)) == multiset(FromKey(Rows(c), k))
    ensures Unshared(c.main, c.over) ==> RowsFrom(c, k) == FromKey(Rows(c), k)
  {
    RowsFromInOrder(c, k);
    RowsFromKeeps(c, k);
    if Unshared(c.main, c.over) {
      RowsSortedIff(c);
      SortedInOrder(Rows(c));
      var n := FromKeySplits(Rows(c), k);
      SortedUnique(RowsFrom(c, k), FromKey(Rows(c), k));
    }
  }

  /** Starting at the key itself swaps the two records that share it. */
  lemma StartSwapsSharedKeys()
    ensures var c := Chain([Rec(1, []), Rec(2, [5])], [Rec(2, [6])]);
            FromKey(Rows(c), 2) == [Rec(2, [6]), Rec(2, [5])] && RowsFrom(c, 2) == [Rec(2, [5]), Rec(2, [6])]
  {
    var a, b := [Rec(1, []), Rec(2, [5])], [Rec(2, [6])];
    assert a[1..] == [Rec(2, [5])] && b[1..] == [] && a[1..][1..] == [];
    assert Interleave(b, a[1..]) == [b[0]] + Interleave(a[1..], []);
    assert Interleave(a[1..], []) == [Rec(2, [5])];
    assert Interleave(a, b) == [Rec(1, [])] + ([Rec(2, [6])] + [Rec(2, [5])]);
    assert Rows(Chain(a, b))[1..] == [Rec(2, [6]), Rec(2, [5])];
    assert FromKey(a, 2) == a[1..];
    assert Interleave(b, []) == [Rec(2, [6])];
    assert Interleave(a[1..], b) == [Rec(2, [5])] + Interleave(b, []);
  }

  // ------------------------------------------------------------ the iterator

  lemma {:induction false} InterleaveNone(top: seq<Rec>)
    ensures Interleave(top, []) == top
    decreases |top|
  {
    if |top| > 1 {
      InterleaveNone(top[1..]);
    } else if |top| == 1 {
      assert Interleave([], top[1..]) == [];
    }
  }

  /** What is left to yield, given what is left of each page and the order of the iterators in the heap. */
  function Yield(left: seq<seq<Rec>>, queue: seq<nat>): seq<Rec>
    requires forall q | 0 <= q < |queue| :: queue[q] < |left|
  {
    if |queue| == 0 then [] else if |queue| == 1 then left[queue[0]] else Interleave(left[queue[0]], left[queue[1]])
  }

  /** The heap after both iterators have been pushed, if they have records. */
  function Filled(a: seq<Rec>, b: seq<Rec>): (queue: seq<nat>)
    ensures forall q | 0 <= q < |queue| :: queue[q] < 2
  {
    if |a| == 0 && |b| == 0 then []
    else if |b| == 0 then [0]
    else if |a| == 0 then [1]
    else if a[0].key <= b[0].key then [0, 1] else [1, 0]
  }

  lemma FilledYield(a: seq<Rec>, b: seq<Rec>)
    ensures Ready([a, b], Filled(a, b))
    ensures Yield([a, b], Filled(a, b)) == Merged(a, b)
  {
    if |b| == 0 {
      InterleaveNone(a);
    } else if |a| == 0 {
      InterleaveNone(b);
    }
  }

  lemma InterleaveLength(a: seq<Rec>, b: seq<Rec>)
    ensures |Interleave(a, b)| == |a| + |b|
  {
    InterleaveKeeps(a, b);
    assert |multiset(Interleave(a, b))| == |Interleave(a, b)|;
    assert |multiset(a) + multiset(b)| == |a| + |b|;
  }

  /** A heap of at most two iterators, smaller keys first. */
  ghost predicate HeapOk(left: seq<seq<Rec>>, queue: seq<nat>) {
    && |left| == 2 && |queue| <= 2 && (|queue| == 2 ==> queue[0] != queue[1])
    && (forall q | 0 <= q < |queue| :: queue[q] < 2 && |left[queue[q]]| > 0)
    && (|queue| == 2 ==> left[queue[0]][0].key <= left[queue[1]][0].key)
  }

  /** The heap has exactly the iterators with records left. */
  ghost predicate Ready(left: seq<seq<Rec>>, queue: seq<nat>) {
    HeapOk(left, queue) && forall i | 0 <= i < 2 :: i in queue <==> |left[i]| > 0
  }

  /** The heap with one more iterator, on top only if its key is smaller. */
  ghost function Pushed(left: seq<seq<Rec>>, queue: seq<nat>, i: nat): seq<nat>
    requires |left| == 2 && i < 2 && |left[i]| > 0 && (|queue| == 1 ==> queue[0] < 2 && |left[queue[0]]| > 0)
  {
    if |queue| == 1 && left[queue[0]][0].key <= left[i][0].key then queue + [i] else [i] + queue
  }

  /** The top iterator moves on and leaves the heap. */
  lemma Popped(left: seq<seq<Rec>>, queue: seq<nat>, left': seq<seq<Rec>>)
    requires Ready(left, queue) && |queue| > 0 && left' == left[queue[0] := left[queue[0]][1..]]
    ensures HeapOk(left', queue[1..]) && queue[0] !in queue[1..]
  {
  }

  /** Moving the top iterator on yields its record. */
  lemma Advanced(left: seq<seq<Rec>>, queue: seq<nat>, left': seq<seq<Rec>>, queue': seq<nat>)
    requires Ready(left, queue) && |queue| > 0 && left' == left[queue[0] := left[queue[0]][1..]]
    requires HeapOk(left', queue')
    requires queue' == if |left'[queue[0]]| > 0 then Pushed(left', queue[1..], queue[0]) else queue[1..]
    ensures Ready(left', queue') && Yield(left', queue') == Yield(left, queue)[1..]
  {
    InterleaveNone(left[queue[0]]);
    if |queue| == 2 {
      InterleaveNone(left[queue[1]]);
    }
  }

  /** An iterator over a page and its overflow page. */
  class PageMergeIterator {
    var left: seq<seq<Rec>>
    var queue: seq<nat>

    ghost predicate Valid()
      reads this
    {
      Ready(left, queue)
    }

    ghost function Rest(): seq<Rec>
      requires Valid()
      reads this
    {
      Yield(left, queue)
    }

    /** Puts an iterator into the heap: on top only if its key is smaller. */
    method Push(i: nat)
      requires HeapOk(left, queue) && |queue| < 2 && i < 2 && i !in queue && |left[i]| > 0
      modifies this`queue
      ensures HeapOk(left, queue)
      ensures queue == Pushed(left, old(queue), i)
    {
      if |queue| == 1 && left[queue[0]][0].key <= left[i][0].key {
        queue := queue + [i];
      } else {
        queue := [i] + queue;
      }
    }

    /** Starts at the first records, or at a key. */
    constructor (c: Chain, start: Option<Key>)
      ensures Valid() && Rest() == if start.None? then Rows(c) else RowsFrom(c, start.value)
    {
      left, queue := [[], []], [];
      new;
      if start.None? {
        Fill(c.main, c.over);
      } else {
        Fill(FromKey(c.main, start.value), FromKey(c.over, start.value));
      }
    }

    /** Pushes the iterators that have records. */
    method Fill(a: seq<Rec>, b: seq<Rec>)
      modifies this
      ensures Valid() && Rest() == Merged(a, b)
    {
      PushBoth(a, b);
      FilledYield(a, b);
    }

    method PushBoth(a: seq<Rec>, b: seq<Rec>)
      modifies this
      ensures left == [a, b] && queue == Filled(a, b)
    {
      left, queue := [a, b], [];
      if |a| > 0 {
        Push(0);
      }
      if |b| > 0 {
        Push(1);
      }
    }

    predicate HasNext()
      requires Valid()
      reads this
      ensures HasNext() <==> |Rest()| > 0
    {
      |queue| > 0
    }

    function Current(): (r: Rec)
      requires Valid() && HasNext()
      reads this
      ensures r == Rest()[0]
    {
      left[queue[0]][0]
    }

    /** Moves on to the next record. */
    method Next()
      requires Valid() && HasNext()
      modifies this
      ensures Valid() && Rest() == old(Rest())[1..]
    {
      var it := queue[0];
      ghost var were, order := left, queue;
      queue := queue[1..];
      left := left[it := left[it][1..]];
      Popped(were, order, left);
      if |left[it]| > 0 {
        Push(it);
      }
      Advanced(were, order, left, queue);
    }

    function RecordsLeft(): (n: nat)
      requires Valid()
      reads this
      ensures n == |Rest()|
    {
      YieldLength(left, queue);
      |left[0]| + |left[1]|
    }
  }

  lemma YieldLength(left: seq<seq<Rec>>, queue: seq<nat>)
    requires HeapOk(left, queue) && forall i | 0 <= i < 2 :: i in queue <==> |left[i]| > 0
    ensures |Yield(left, queue)| == |left[0]| + |left[1]|
  {
    if |queue| == 2 {
      InterleaveLength(left[queue[0]], left[queue[1]]);
    } else {
      assert 0 in queue <==> |left[0]| > 0;
      assert 1 in queue <==> |left[1]| > 0;
    }
  }
}
