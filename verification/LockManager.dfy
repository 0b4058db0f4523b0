// The lock manager: counters in hash maps, changed one entry at a time.
module LockManager {

  type LockId = nat

  datatype SegmentMode = PageRead | PageWrite | Reorg | ReorgExclusive

  datatype PageMode = Shared | Exclusive

  /** How many locks of each mode a segment has. */
  datatype SegmentCounts = SegmentCounts(readers: nat, writers: nat, reorgs: nat, exclusives: nat) {
    function Of(m: SegmentMode): nat {
      match m
      case PageRead => readers
      case PageWrite => writers
      case Reorg => reorgs
      case ReorgExclusive => exclusives
    }

    function Add(m: SegmentMode): SegmentCounts {
      match m
      case PageRead => this.(readers := readers + 1)
      case PageWrite => this.(writers := writers + 1)
      case Reorg => this.(reorgs := reorgs + 1)
      case ReorgExclusive => this.(exclusives := exclusives + 1)
    }

    function Drop(m: SegmentMode): SegmentCounts
      requires Of(m) > 0
    {
      match m
      case PageRead => this.(readers := readers - 1)
      case PageWrite => this.(writers := writers - 1)
      case Reorg => this.(reorgs := reorgs - 1)
      case ReorgExclusive => this.(exclusives := exclusives - 1)
    }

    predicate Empty() {
      readers == 0 && writers == 0 && reorgs == 0 && exclusives == 0
    }
  }

  datatype PageCounts = PageCounts(shared: nat, exclusive: nat)

  /** A lock on a segment. */
  datatype Grant = Grant(id: LockId, mode: SegmentMode)

  datatype PageGrant = PageGrant(id: LockId, mode: PageMode)

  /** The compatibility table of the segment modes. */
  predicate MayJoin(requested: SegmentMode, held: SegmentMode) {
    match requested
    case PageRead => held != ReorgExclusive
    case PageWrite => held == PageRead || held == PageWrite
    case Reorg => held == PageRead
    case ReorgExclusive => false
  }

  /** No lock that is held on the segment conflicts with the requested one. */
  ghost predicate Grantable(held: multiset<Grant>, id: LockId, m: SegmentMode) {
    forall k: SegmentMode | held[Grant(id, k)] > 0 :: MayJoin(m, k)
  }

  ghost predicate PageGrantable(held: multiset<PageGrant>, id: LockId, m: PageMode) {
    held[PageGrant(id, Exclusive)] == 0 && (m == Exclusive ==> held[PageGrant(id, Shared)] == 0)
  }

  // ------------------------------------------------------------ counters and holders

  function CountsIn(segments: map<LockId, SegmentCounts>, id: LockId): SegmentCounts {
    if id in segments then segments[id] else SegmentCounts(0, 0, 0, 0)
  }

  /** The counters of a segment count its holders. */
  ghost predicate Counted(held: multiset<Grant>, id: LockId, c: SegmentCounts) {
    && held[Grant(id, PageRead)] == c.readers && held[Grant(id, PageWrite)] == c.writers
    && held[Grant(id, Reorg)] == c.reorgs && held[Grant(id, ReorgExclusive)] == c.exclusives
  }

  /** The modes that can be held together; readers may still be there while an upgrade waits for them. */
  predicate Together(c: SegmentCounts) {
    && (c.exclusives > 0 ==> c.exclusives == 1 && c.reorgs == 0 && c.writers == 0)
    && (c.reorgs > 0 ==> c.reorgs == 1 && c.writers == 0)
  }

  /** The counters count the holders, and no state is kept for a segment without locks. */
  ghost predicate SegmentsOk(segments: map<LockId, SegmentCounts>, held: multiset<Grant>) {
    forall id ::
      && Counted(held, id, CountsIn(segments, id)) && Together(CountsIn(segments, id))
      && (id in segments ==> !segments[id].Empty())
  }

  lemma GrantableModes(held: multiset<Grant>, id: LockId, m: SegmentMode)
    ensures Grantable(held, id, m) <==>
              && (held[Grant(id, PageRead)] > 0 ==> MayJoin(m, PageRead))
              && (held[Grant(id, PageWrite)] > 0 ==> MayJoin(m, PageWrite))
              && (held[Grant(id, Reorg)] > 0 ==> MayJoin(m, Reorg))
              && (held[Grant(id, ReorgExclusive)] > 0 ==> MayJoin(m, ReorgExclusive))
  {
    if && (held[Grant(id, PageRead)] > 0 ==> MayJoin(m, PageRead))
       && (held[Grant(id, PageWrite)] > 0 ==> MayJoin(m, PageWrite))
       && (held[Grant(id, Reorg)] > 0 ==> MayJoin(m, Reorg))
       && (held[Grant(id, ReorgExclusive)] > 0 ==> MayJoin(m, ReorgExclusive)) {
      forall k: SegmentMode | held[Grant(id, k)] > 0
        ensures MayJoin(m, k)
      {
        match k
        case PageRead =>
        case PageWrite =>
        case Reorg =>
        case ReorgExclusive =>
      }
    }
  }

  /** The table decides as the counters do. */
  lemma GrantableCounts(held: multiset<Grant>, id: LockId, c: SegmentCounts)
    requires Counted(held, id, c)
    ensures Grantable(held, id, PageRead) <==> c.exclusives == 0
    ensures Grantable(held, id, PageWrite) <==> c.reorgs == 0 && c.exclusives == 0
    ensures Grantable(held, id, Reorg) <==> c.writers == 0 && c.reorgs == 0 && c.exclusives == 0
  {
    GrantableModes(held, id, PageRead);
    GrantableModes(held, id, PageWrite);
    GrantableModes(held, id, Reorg);
  }

  lemma AddCounted(held: multiset<Grant>, id: LockId, c: SegmentCounts, m: SegmentMode)
    requires Counted(held, id, c)
    ensures Counted(held + multiset{Grant(id, m)}, id, c.Add(m)) && !c.Add(m).Empty()
  {
  }

  lemma DropCounted(held: multiset<Grant>, id: LockId, c: SegmentCounts, m: SegmentMode)
    requires Counted(held, id, c) && held[Grant(id, m)] > 0
    ensures c.Of(m) > 0 && Counted(held - multiset{Grant(id, m)}, id, c.Drop(m))
    ensures Together(c) ==> Together(c.Drop(m))
  {
  }

  /** Counters that drop to zero are not kept. */
  function Keep(segments: map<LockId, SegmentCounts>, id: LockId, c: SegmentCounts): (r: map<LockId, SegmentCounts>)
    ensures CountsIn(r, id) == c && (id in r ==> !r[id].Empty())
    ensures forall i | i != id :: CountsIn(r, i) == CountsIn(segments, i) && (i in r ==> i in segments)
  {
    if c.Empty() then segments - {id} else segments[id := c]
  }

  /** Only the counters of one segment change. */
  lemma OneSegment(segments: map<LockId, SegmentCounts>, segments': map<LockId, SegmentCounts>,
                   held: multiset<Grant>, held': multiset<Grant>, id: LockId)
    requires SegmentsOk(segments, held)
    requires forall i | i != id :: CountsIn(segments', i) == CountsIn(segments, i) && (i in segments' ==> i in segments)
    requires forall i, m | i != id :: held'[Grant(i, m)] == held[Grant(i, m)]
    requires Counted(held', id, CountsIn(segments', id)) && Together(CountsIn(segments', id))
    requires id in segments' ==> !segments'[id].Empty()
    ensures SegmentsOk(segments', held')
  {
    forall i
      ensures Counted(held', i, CountsIn(segments', i)) && Together(CountsIn(segments', i))
      ensures i in segments' ==> !segments'[i].Empty()
    {
      assert Counted(held, i, CountsIn(segments, i)) && Together(CountsIn(segments, i));
    }
  }

  /** Takes one lock of a mode off the counters. */
  method Uncount(segments: map<LockId, SegmentCounts>, id: LockId, m: SegmentMode, ghost held: multiset<Grant>)
    returns (segments': map<LockId, SegmentCounts>)
    requires SegmentsOk(segments, held) && held[Grant(id, m)] > 0
    ensures SegmentsOk(segments', held - multiset{Grant(id, m)})
  {
    var c := CountsIn(segments, id);
    assert Counted(held, id, c) && Together(c);
    DropCounted(held, id, c, m);
    segments' := Keep(segments, id, c.Drop(m));
    OneSegment(segments, segments', held, held - multiset{Grant(id, m)}, id);
  }

  function PageCountsIn(pages: map<LockId, PageCounts>, id: LockId): PageCounts {
    if id in pages then pages[id] else PageCounts(0, 0)
  }

  ghost predicate PageCounted(held: multiset<PageGrant>, id: LockId, c: PageCounts) {
    && held[PageGrant(id, Shared)] == c.shared && held[PageGrant(id, Exclusive)] == c.exclusive
    && (c.exclusive > 0 ==> c == PageCounts(0, 1))
  }

  ghost predicate PagesOk(pages: map<LockId, PageCounts>, held: multiset<PageGrant>) {
    forall id :: PageCounted(held, id, PageCountsIn(pages, id)) && (id in pages ==> pages[id] != PageCounts(0, 0))
  }

  lemma OnePage(pages: map<LockId, PageCounts>, pages': map<LockId, PageCounts>,
                held: multiset<PageGrant>, held': multiset<PageGrant>, id: LockId)
    requires PagesOk(pages, held)
    requires forall i | i != id :: PageCountsIn(pages', i) == PageCountsIn(pages, i) && (i in pages' ==> i in pages)
    requires forall i, m | i != id :: held'[PageGrant(i, m)] == held[PageGrant(i, m)]
    requires PageCounted(held', id, PageCountsIn(pages', id)) && (id in pages' ==> pages'[id] != PageCounts(0, 0))
    ensures PagesOk(pages', held')
  {
    forall i
      ensures PageCounted(held', i, PageCountsIn(pages', i)) && (i in pages' ==> pages'[i] != PageCounts(0, 0))
    {
      assert PageCounted(held, i, PageCountsIn(pages, i));
    }
  }

  // ------------------------------------------------------------ the lock manager

  class LockManager {
    var segments: map<LockId, SegmentCounts>
    var pages: map<LockId, PageCounts>
    ghost var held: multiset<Grant>
    ghost var heldPages: multiset<PageGrant>

    ghost predicate Valid()
      reads this
    {
      SegmentsOk(segments, held) && PagesOk(pages, heldPages)
    }

    constructor ()
      ensures Valid() && held == multiset{} && heldPages == multiset{}
    {
      segments, pages, held, heldPages := map[], map[], multiset{}, multiset{};
    }

    /** Grants the lock exactly if no lock that is held conflicts with it. */
    method TryAcquireSegmentLock(id: LockId, mode: SegmentMode) returns (granted: bool)
      requires Valid() && mode != ReorgExclusive
      modifies this`segments, this`held
      ensures Valid()
      ensures granted <==> Grantable(old(held), id, mode)
      ensures held == if granted then old(held) + multiset{Grant(id, mode)} else old(held)
    {
      var c := CountsIn(segments, id);
      assert Counted(held, id, c) && Together(c);
      GrantableCounts(held, id, c);
      match mode {
        case PageRead => granted := c.exclusives == 0;
        case PageWrite => granted := c.reorgs == 0 && c.exclusives == 0;
        case Reorg => granted := c.writers == 0 && c.reorgs == 0 && c.exclusives == 0;
      }
      if granted {
        AddCounted(held, id, c, mode);
        segments := segments[id := c.Add(mode)];
        held := held + multiset{Grant(id, mode)};
        OneSegment(old(segments), segments, old(held), held, id);
      }
    }

    method ReleaseSegmentLock(id: LockId, mode: SegmentMode)
      requires Valid() && held[Grant(id, mode)] > 0
      modifies this`segments, this`held
      ensures Valid() && held == old(held) - multiset{Grant(id, mode)}
    {
      segments := Uncount(segments, id, mode, held);
      held := held - multiset{Grant(id, mode)};
    }

    /** Turns a reorganisation lock into an exclusive one; new readers are kept out from here on. */
    method BeginUpgrade(id: LockId) returns (done: bool)
      requires Valid() && held[Grant(id, Reorg)] > 0
      modifies this`segments, this`held
      ensures Valid()
      ensures held == old(held) - multiset{Grant(id, Reorg)} + multiset{Grant(id, ReorgExclusive)}
      ensures done <==> held[Grant(id, PageRead)] == 0
    {
      var c := CountsIn(segments, id);
      assert Counted(held, id, c) && Together(c);
      segments := segments[id := c.(reorgs := 0, exclusives := 1)];
      held := held - multiset{Grant(id, Reorg)} + multiset{Grant(id, ReorgExclusive)};
      done := c.readers == 0;
      OneSegment(old(segments), segments, old(held), held, id);
    }

    /** Whether the readers are gone: then the upgraded lock is the only one on the segment. */
    method UpgradeComplete(id: LockId) returns (done: bool)
      requires Valid() && held[Grant(id, ReorgExclusive)] > 0
      ensures done <==> forall m | m != ReorgExclusive :: held[Grant(id, m)] == 0
      ensures done ==> held[Grant(id, ReorgExclusive)] == 1
    {
      var c := CountsIn(segments, id);
      assert Counted(held, id, c) && Together(c);
      done := c.readers == 0;
    }

    // ---------------------------------------------------------- page locks

    method TryAcquirePageLock(id: LockId, mode: PageMode) returns (granted: bool)
      requires Valid()
      modifies this`pages, this`heldPages
      ensures Valid()
      ensures granted <==> PageGrantable(old(heldPages), id, mode)
      ensures heldPages == if granted then old(heldPages) + multiset{PageGrant(id, mode)} else old(heldPages)
    {
      var c := PageCountsIn(pages, id);
      assert PageCounted(heldPages, id, c);
      granted := c.exclusive == 0 && (mode == Exclusive ==> c.shared == 0);
      if granted {
        pages := pages[id := if mode == Shared then c.(shared := c.shared + 1) else c.(exclusive := c.exclusive + 1)];
        heldPages := heldPages + multiset{PageGrant(id, mode)};
        OnePage(old(pages), pages, old(heldPages), heldPages, id);
      }
    }

    method ReleasePageLock(id: LockId, mode: PageMode)
      requires Valid() && heldPages[PageGrant(id, mode)] > 0
      modifies this`pages, this`heldPages
      ensures Valid() && heldPages == old(heldPages) - multiset{PageGrant(id, mode)}
    {
      var c := PageCountsIn(pages, id);
      assert PageCounted(heldPages, id, c);
      var c' := if mode == Shared then c.(shared := c.shared - 1) else c.(exclusive := c.exclusive - 1);
      pages := if c' == PageCounts(0, 0) then pages - {id} else pages[id := c'];
      heldPages := heldPages - multiset{PageGrant(id, mode)};
      OnePage(old(pages), pages, old(heldPages), heldPages, id);
    }
  }
}
