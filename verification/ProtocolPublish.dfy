// Publishing a rewrite: the old segments leave the index and the new ones take their place.
module ProtocolPublish {
  import opened Bytes
  import opened SegmentProtocol
  import opened ProtocolInvariant
  import opened ProtocolQuiet
  import opened ProtocolWrites

  // ------------------------------------------------------------ the index after the exchange

  lemma {:induction false} InsertAllKeys(index: Index, es: seq<Entry>, l: Key)
    ensures l in InsertAll(index, es) <==> l in index || l in Lowers(es)
    ensures l in index && l !in Lowers(es) ==> InsertAll(index, es)[l] == index[l]
    decreases |es|
  {
    if |es| > 0 {
      var front, last := es[..|es| - 1], es[|es| - 1].lower;
      InsertAllKeys(index, front, l);
      LowersSplit(es, l);
    }
  }

  lemma LowersSplit(es: seq<Entry>, l: Key)
    requires |es| > 0
    ensures l in Lowers(es) <==> l in Lowers(es[..|es| - 1]) || l == es[|es| - 1].lower
  {
    var front := es[..|es| - 1];
    if l in Lowers(es) {
      var i :| 0 <= i < |es| && es[i].lower == l;
      assert i < |front| ==> front[i].lower == l;
    }
    if l in Lowers(front) {
      var i :| 0 <= i < |front| && front[i].lower == l;
      assert es[i].lower == l;
    }
    assert es[|es| - 1].lower in Lowers(es);
  }

  lemma {:induction false} InsertAllAt(index: Index, es: seq<Entry>, i: nat)
    requires i < |es| && (forall a, b | 0 <= a < b < |es| :: es[a].lower < es[b].lower)
    ensures es[i].lower in InsertAll(index, es) && InsertAll(index, es)[es[i].lower] == es[i].id
    decreases |es|
  {
    if i < |es| - 1 {
      InsertAllAt(index, es[..|es| - 1], i);
    }
  }

  /** The situation when a rewrite publishes. */
  ghost predicate Swap(index: Index, index': Index, region: seq<Entry>, news: seq<Entry>) {
    && IndexOk(index) && Chain(region) && AllIn(index, region)
    && Chain(news) && Lo(news) == Lo(region) && Hi(news) == Hi(region)
    && index' == Replace(index, region, news)
  }

  /** A bound inside the region is the lower bound of one of its segments. */
  lemma InsideIsLower(index: Index, region: seq<Entry>, l: Key)
    requires Chain(region) && AllIn(index, region) && l in index && Lo(region) <= l < Hi(region)
    ensures l in Lowers(region)
  {
    var i := ChainCovers(region, |region|, l);
    assert Has(index, region[i]);
    assert region[i].lower in Lowers(region);
  }

  lemma LowerInside(es: seq<Entry>, l: Key)
    requires Chain(es) && l in Lowers(es)
    ensures Lo(es) <= l < Hi(es)
  {
    var i :| 0 <= i < |es| && es[i].lower == l;
    ChainBounds(es, i);
  }

  /** The bounds after the exchange: those outside the region, and those of the new segments. */
  lemma SwapKeys(index: Index, index': Index, region: seq<Entry>, news: seq<Entry>, l: Key)
    requires Swap(index, index', region, news)
    ensures l in index' <==> (l in index && !(Lo(region) <= l < Hi(region))) || l in Lowers(news)
    ensures l in index' && l !in Lowers(news) ==> index'[l] == index[l]
  {
    InsertAllKeys(index - Lowers(region), news, l);
    if l in Lowers(region) {
      LowerInside(region, l);
    }
    if l in index && Lo(region) <= l < Hi(region) {
      InsideIsLower(index, region, l);
    }
    if l in Lowers(news) {
      LowerInside(news, l);
    }
  }

  /** The new segments are in the index, with the bounds they were built for. */
  lemma SwapHasNew(index: Index, index': Index, region: seq<Entry>, news: seq<Entry>, i: nat)
    requires Swap(index, index', region, news) && i < |news|
    ensures Has(index', news[i])
  {
    var e := news[i];
    forall a, b | 0 <= a < b < |news|
      ensures news[a].lower < news[b].lower
    {
      ChainRises(news, a, b);
    }
    InsertAllAt(index - Lowers(region), news, i);
    ChainBounds(news, i);
    assert Has(index, region[|region| - 1]);
    SwapUpper(index, index', region, news, i);
    forall l | l in index'
      ensures !(e.lower < l < e.upper)
    {
      SwapKeys(index, index', region, news, l);
      if l in Lowers(news) {
        var j :| 0 <= j < |news| && news[j].lower == l;
        if i < j {
          ChainRises(news, i, j);
        } else if j < i {
          ChainRises(news, j, i);
        }
      }
    }
  }

  lemma SwapUpper(index: Index, index': Index, region: seq<Entry>, news: seq<Entry>, i: nat)
    requires Swap(index, index', region, news) && i < |news|
    ensures news[i].upper == MAX_KEY || news[i].upper in index'
  {
    if i < |news| - 1 {
      assert news[i + 1].lower in Lowers(news);
      SwapKeys(index, index', region, news, news[i + 1].lower);
    } else {
      var last := region[|region| - 1];
      assert Has(index, last);
      SwapKeys(index, index', region, news, last.upper);
    }
  }

  /** A segment outside the region shares no key with it. */
  lemma OutsideApart(index: Index, region: seq<Entry>, e: Entry, k: Key)
    requires Chain(region) && AllIn(index, region) && Has(index, e) && e !in region && e.Contains(k)
    ensures !(Lo(region) <= k < Hi(region))
  {
    OutsideRegion(index, e, k, region, |region|);
  }

  /** A segment outside the region ends before the region or begins after it. */
  lemma OutsideSide(index: Index, region: seq<Entry>, e: Entry)
    requires Chain(region) && AllIn(index, region) && Has(index, e) && e !in region
    ensures e.upper <= Lo(region) || Hi(region) <= e.lower
  {
    OutsideApart(index, region, e, e.lower);
    assert Has(index, region[0]);
  }

  /** A segment outside the region stays in the index with its bounds. */
  lemma SwapKeepsOther(index: Index, index': Index, region: seq<Entry>, news: seq<Entry>, e: Entry)
    requires Swap(index, index', region, news) && Has(index, e) && e !in region
    ensures Has(index', e)
  {
    OutsideSide(index, region, e);
    SwapKeys(index, index', region, news, e.lower);
    SwapKeys(index, index', region, news, e.upper);
    if e.lower in Lowers(news) {
      LowerInside(news, e.lower);
    }
    assert news[0].lower in Lowers(news);
    forall l | l in index'
      ensures !(e.lower < l < e.upper)
    {
      SwapKeys(index, index', region, news, l);
      if l in Lowers(news) {
        LowerInside(news, l);
      }
    }
  }

  /** Every segment after the exchange is a new one or was there before, outside the region. */
  lemma SwapEntries(index: Index, index': Index, region: seq<Entry>, news: seq<Entry>, f: Entry)
    requires Swap(index, index', region, news) && Has(index', f)
    ensures f in news || (Has(index, f) && f !in region)
  {
    SwapKeys(index, index', region, news, f.lower);
    if f.lower in Lowers(news) {
      var i :| 0 <= i < |news| && news[i].lower == f.lower;
      SwapHasNew(index, index', region, news, i);
      EntryUnique(index', f, news[i], f.lower);
    } else {
      var e := EntryFor(index, f.lower);
      assert e.lower == f.lower;
      if e in region {
        var i :| 0 <= i < |region| && region[i] == e;
        ChainBounds(region, i);
      }
      SwapKeepsOther(index, index', region, news, e);
      EntryUnique(index', f, e, f.lower);
    }
  }

  // ------------------------------------------------------------ the state after the exchange

  /** Thread `t` exchanges its old segments for its new ones. */
  ghost predicate Publishes(s: State, s': State, t: nat, region: seq<Entry>, news: seq<Entry>, extra: Records) {
    && Swap(s.index, s'.index, region, news) && Distinct(news)
    && s'.free == s.free && s'.contents == s.contents && s'.db == s.db + extra && s'.built == s.built
    && s'.owner == SetOwner(SetOwner(s.owner, Ids(region), Private(t)), Ids(news), Indexed)
    && Within(extra, Lo(region), Hi(region))
    && AllOwned(s.owner, Ids(news), Private(t))
    && (forall id | id in Ids(region) :: id in s.owner && (s.owner[id].Indexed? || s.owner[id] == Doomed(t)))
  }

  lemma PublishedOwner(s: State, s': State, t: nat, region: seq<Entry>, news: seq<Entry>, extra: Records, id: Id)
    requires Publishes(s, s', t, region, news, extra)
    ensures id in Ids(region) ==> id !in Ids(news) && id in s'.owner && s'.owner[id] == Private(t)
    ensures id in Ids(news) ==> id in s'.owner && s'.owner[id] == Indexed
    ensures id !in Ids(region) && id !in Ids(news) ==> (id in s'.owner <==> id in s.owner)
    ensures id !in Ids(region) && id !in Ids(news) && id in s.owner ==> s'.owner[id] == s.owner[id]
  {
  }

  /** Every id that is in the index beforehand, outside the region, is outside the region's ids. */
  lemma OutsideId(s: State, region: seq<Entry>, e: Entry)
    requires IndexOk(s.index) && AllIn(s.index, region) && Has(s.index, e)
    ensures e in region <==> e.id in Ids(region)
  {
    if e in region {
      IdsMember(region, e);
    }
    if e.id in Ids(region) {
      var i :| 0 <= i < |region| && region[i].id == e.id;
      SameId(s.index, e, region[i]);
    }
  }

  lemma RestrictOverlay(db: Records, extra: Records, lo: Key, hi: Key)
    requires forall k | k in extra :: !(lo <= k < hi)
    ensures Restrict(db + extra, lo, hi) == Restrict(db, lo, hi)
  {
  }

  lemma RestrictInside(db: Records, extra: Records, lo: Key, hi: Key, a: Key, b: Key)
    requires lo <= a <= b <= hi
    ensures Restrict(Restrict(db, lo, hi) + extra, a, b) == Restrict(db + extra, a, b)
  {
  }

  /** The records of a segment outside the region are the same. */
  lemma OutsideSame(s: State, s': State, t: nat, region: seq<Entry>, news: seq<Entry>, extra: Records, e: Entry)
    requires Publishes(s, s', t, region, news, extra) && Has(s.index, e) && e !in region
    ensures Restrict(s'.db, e.lower, e.upper) == Restrict(s.db, e.lower, e.upper)
  {
    OutsideSide(s.index, region, e);
    RestrictOverlay(s.db, extra, e.lower, e.upper);
  }

  /** The records of a chain of segments outside the region are the same. */
  lemma OutsideChainSame(s: State, s': State, t: nat, region: seq<Entry>, news: seq<Entry>, extra: Records,
                         es: seq<Entry>, n: nat)
    requires Publishes(s, s', t, region, news, extra) && Chain(es) && AllIn(s.index, es) && n <= |es|
    requires forall i | 0 <= i < |es| :: es[i] !in region
    ensures Restrict(s'.db, Lo(es), HiOf(es, n)) == Restrict(s.db, Lo(es), HiOf(es, n))
  {
    forall k | k in extra
      ensures !(Lo(es) <= k < HiOf(es, n))
    {
      if Lo(es) <= k < HiOf(es, n) {
        var i := ChainCovers(es, n, k);
        OutsideApart(s.index, region, es[i], k);
      }
    }
    RestrictOverlay(s.db, extra, Lo(es), HiOf(es, n));
  }

  lemma {:induction false} PublishIndex(s: State, s': State, t: nat, region: seq<Entry>, news: seq<Entry>, extra: Records)
    requires Publishes(s, s', t, region, news, extra) && OwnersOk(s)
    ensures IndexOk(s'.index)
  {
    SwapKeys(s.index, s'.index, region, news, 0);
    assert news[0].lower in Lowers(news);
    forall l | l in s'.index
      ensures l < MAX_KEY
    {
      SwapKeys(s.index, s'.index, region, news, l);
      if l in Lowers(news) {
        LowerInside(news, l);
        assert Has(s.index, region[|region| - 1]);
      }
    }
    forall k, l | k in s'.index && l in s'.index && s'.index[k] == s'.index[l]
      ensures k == l
    {
      SwapKeys(s.index, s'.index, region, news, k);
      SwapKeys(s.index, s'.index, region, news, l);
      NewBound(s, s', t, region, news, extra, k);
      NewBound(s, s', t, region, news, extra, l);
    }
  }

  /** A bound belongs to a new segment, under a private id, or to an old one, under an indexed id. */
  lemma {:induction false} NewBound(s: State, s': State, t: nat, region: seq<Entry>, news: seq<Entry>, extra: Records, l: Key)
    requires Publishes(s, s', t, region, news, extra) && OwnersOk(s) && l in s'.index
    ensures l in Lowers(news) ==>
              exists i | 0 <= i < |news| :: news[i].lower == l && s'.index[l] == news[i].id
    ensures l in Lowers(news) ==> s'.index[l] in Ids(news)
    ensures l !in Lowers(news) ==> l in s.index && s'.index[l] == s.index[l] && s.index[l] !in Ids(news)
    ensures l !in Lowers(news) ==> s.index[l] !in Ids(region)
  {
    SwapKeys(s.index, s'.index, region, news, l);
    if l in Lowers(news) {
      var i :| 0 <= i < |news| && news[i].lower == l;
      SwapHasNew(s.index, s'.index, region, news, i);
      assert news[i].id in Ids(news);
    } else {
      var e := EntryFor(s.index, l);
      OutsideId(s, region, e);
      if e in region {
        var i :| 0 <= i < |region| && region[i] == e;
        ChainBounds(region, i);
      }
    }
  }

  lemma {:induction false} PublishOwners(s: State, s': State, t: nat, region: seq<Entry>, news: seq<Entry>, extra: Records)
    requires Publishes(s, s', t, region, news, extra) && OwnersOk(s)
    ensures OwnersOk(s')
  {
    forall l | l in s'.index
      ensures s'.index[l] in s'.owner && (s'.owner[s'.index[l]].Indexed? || s'.owner[s'.index[l]].Doomed?)
    {
      NewBound(s, s', t, region, news, extra, l);
      PublishedOwner(s, s', t, region, news, extra, s'.index[l]);
    }
  }

  lemma PublishDoomed(s: State, s': State, t: nat, region: seq<Entry>, news: seq<Entry>, extra: Records)
    requires Publishes(s, s', t, region, news, extra) && DoomedOk(s.owner, s.threads)
    requires t < |s.threads| && Full(s.threads[t]) && s.threads[t].region == region
    requires s'.threads == s.threads[t := Published(region)]
    ensures DoomedOk(s'.owner, s'.threads)
  {
    forall id | id in s'.owner && s'.owner[id].Doomed?
      ensures s'.owner[id].t < |s'.threads| && Full(s'.threads[s'.owner[id].t]) && id in Ids(s'.threads[s'.owner[id].t].region)
    {
      PublishedOwner(s, s', t, region, news, extra, id);
    }
  }

  lemma {:induction false} PublishData(s: State, s': State, t: nat, region: seq<Entry>, news: seq<Entry>, extra: Records)
    requires Publishes(s, s', t, region, news, extra) && OwnersOk(s) && DataOk(s)
    requires forall i | 0 <= i < |news| :: NewOk(s.contents, Restrict(s.db, Lo(region), Hi(region)) + extra, news[i])
    ensures DataOk(s')
  {
    forall l | l in s'.index
      ensures l in s'.db
    {
      NewBound(s, s', t, region, news, extra, l);
    }
    forall f | Has(s'.index, f) && f.id in s'.owner && s'.owner[f.id].Indexed?
      ensures SegmentOk(s', f)
    {
      SwapEntries(s.index, s'.index, region, news, f);
      if f in news {
        var i :| 0 <= i < |news| && news[i] == f;
        ChainBounds(news, i);
        RestrictInside(s.db, extra, Lo(region), Hi(region), f.lower, f.upper);
      } else {
        PublishedData(s, s', t, region, news, extra, f);
      }
    }
  }

  lemma {:induction false} PublishedData(s: State, s': State, t: nat, region: seq<Entry>, news: seq<Entry>, extra: Records, f: Entry)
    requires Publishes(s, s', t, region, news, extra) && OwnersOk(s) && DataOk(s)
    requires Has(s.index, f) && f !in region && f.id in s'.owner && s'.owner[f.id].Indexed?
    ensures SegmentOk(s', f)
  {
    OutsideId(s, region, f);
    assert s.index[f.lower] == f.id;
    PublishedOwner(s, s', t, region, news, extra, f.id);
    assert SegmentOk(s, f);
    OutsideSame(s, s', t, region, news, extra, f);
  }

  // ------------------------------------------------------------ the other threads

  /** What another thread relies on is outside the region. */
  lemma {:induction false} OthersOutside(s: State, t: nat, u: nat, e: Entry)
    requires LocksOk(s.threads) && ThreadsOk(s) && t < |s.threads| && u < |s.threads| && u != t
    requires Full(s.threads[t]) && RefersTo(s.threads[u], e)
    ensures e.id !in Ids(s.threads[t].region) && e !in s.threads[t].region
  {
    var th := s.threads[t];
    assert LocalOk(s.threads[u]) by {
      assert ThreadOk(s, u, s.threads[u]);
    }
    if e in th.region {
      IdsMember(th.region, e);
    }
    if e.id in Ids(th.region) {
      assert th.region[..th.n] == th.region;
      assert Holds(th, e.id, OX);
      ExclusiveAlone(s.threads, t, u, e.id, e);
    }
  }

  lemma {:induction false} PublishEntries(s: State, s': State, t: nat, u: nat, region: seq<Entry>, news: seq<Entry>, extra: Records)
    requires Publishes(s, s', t, region, news, extra) && t < |s.threads| && u < |s.threads| && u != t
    requires LocksOk(s.threads) && ThreadsOk(s) && Full(s.threads[t]) && s.threads[t].region == region
    ensures EntriesOk(s'.index, s'.owner, u, s.threads[u])
  {
    forall e | RefersTo(s.threads[u], e)
      ensures Has(s'.index, e) && e.id in s'.owner && s'.owner[e.id] == s.owner[e.id]
    {
      OthersOutside(s, t, u, e);
      SwapKeepsOther(s.index, s'.index, region, news, e);
      PublishedOwner(s, s', t, region, news, extra, e.id);
    }
    assert ThreadOk(s, u, s.threads[u]);
  }

  lemma {:induction false} PublishCopies(s: State, s': State, t: nat, u: nat, region: seq<Entry>, news: seq<Entry>, extra: Records)
    requires Publishes(s, s', t, region, news, extra) && t < |s.threads| && u < |s.threads| && u != t
    requires LocksOk(s.threads) && ThreadsOk(s) && Full(s.threads[t]) && s.threads[t].region == region
    ensures CopiesOk(s'.contents, s'.db, s.threads[u])
  {
    var th := s.threads[u];
    assert ThreadOk(s, u, th);
    if th.Rewriting? || th.Upgrading? {
      forall i | 0 <= i < |th.region|
        ensures Has(s.index, th.region[i]) && th.region[i] !in region
      {
        assert RefersTo(th, th.region[i]);
        OthersOutside(s, t, u, th.region[i]);
      }
      OutsideChainSame(s, s', t, region, news, extra, th.region, if th.Rewriting? then th.n else |th.region|);
    }
  }

  lemma {:induction false} PublishPrivate(s: State, s': State, t: nat, u: nat, region: seq<Entry>, news: seq<Entry>, extra: Records)
    requires Publishes(s, s', t, region, news, extra) && u < |s.threads| && u != t && ThreadOk(s, u, s.threads[u])
    ensures PrivateOk(s'.owner, u, s.threads[u])
  {
    forall id | id in s.owner && s.owner[id] == Private(u)
      ensures id in s'.owner && s'.owner[id] == Private(u)
    {
      PublishedOwner(s, s', t, region, news, extra, id);
    }
  }

  lemma {:induction false} PublishOther(s: State, s': State, t: nat, u: nat, region: seq<Entry>, news: seq<Entry>, extra: Records)
    requires Publishes(s, s', t, region, news, extra) && t < |s.threads| && u < |s.threads| && u != t
    requires LocksOk(s.threads) && ThreadsOk(s) && Full(s.threads[t]) && s.threads[t].region == region
    ensures ThreadOk(s', u, s.threads[u])
  {
    assert ThreadOk(s, u, s.threads[u]);
    PublishEntries(s, s', t, u, region, news, extra);
    PublishCopies(s, s', t, u, region, news, extra);
    PublishPrivate(s, s', t, u, region, news, extra);
  }

  lemma PublishSelf(s: State, s': State, t: nat, region: seq<Entry>, news: seq<Entry>, extra: Records)
    requires Publishes(s, s', t, region, news, extra)
    ensures ThreadOk(s', t, Published(region))
  {
    forall id | id in Ids(region)
      ensures id in s'.owner && s'.owner[id] == Private(t)
    {
      PublishedOwner(s, s', t, region, news, extra, id);
    }
  }

  /** A segment that someone saw: if its id is not that of a new one, it is out of the index or in it as it was. */
  lemma SwapAsSeen(index: Index, index': Index, region: seq<Entry>, news: seq<Entry>, e: Entry)
    requires Swap(index, index', region, news) && StillAsSeen(index, e) && e.id !in Ids(news)
    ensures StillAsSeen(index', e)
  {
    forall i | 0 <= i < |news|
      ensures news[i].lower in index' && index'[news[i].lower] in Ids(news)
    {
      SwapHasNew(index, index', region, news, i);
      IdsMember(news, news[i]);
    }
    if e.lower in index' && index'[e.lower] == e.id {
      SwapKeys(index, index', region, news, e.lower);
      assert e.lower !in Lowers(news);
      forall i | 0 <= i < |region|
        ensures Lo(region) <= region[i].lower < Hi(region)
      {
        ChainBounds(region, i);
      }
      SwapKeepsOther(index, index', region, news, e);
    }
  }

  lemma PublishPending(s: State, s': State, t: nat, region: seq<Entry>, news: seq<Entry>, extra: Records)
    requires Publishes(s, s', t, region, news, extra) && AllPending(s) && t < |s.threads|
    requires s.threads[t].Upgrading? && s.threads[t].news == news && s'.threads == s.threads[t := Published(region)]
    ensures AllPending(s')
  {
    forall u | 0 <= u < |s'.threads|
      ensures PendingOk(s'.index, s'.built, s'.threads, s'.threads[u])
    {
      var x := s'.threads[u];
      if x.Locking? {
        assert PendingOk(s.index, s.built, s.threads, x);
        if NotRebuilt(s'.built, x.since, Ids(x.region)) {
          forall i | 0 <= i < |x.region|
            ensures StillAsSeen(s'.index, x.region[i]) && NotInNews(s'.threads, x.region[i].id)
          {
            assert StillAsSeen(s.index, x.region[i]) && NotInNews(s.threads, x.region[i].id);
            SwapAsSeen(s.index, s'.index, region, news, x.region[i]);
          }
        }
      }
    }
  }

  /** What a publishing step does, in terms of the invariant. */
  lemma {:induction false} PublishIs(s: State, t: nat)
    requires Inv(s) && Enabled(s, t, Publish)
    ensures Publishes(s, Next(s, t, Publish), t, s.threads[t].region, s.threads[t].news, s.threads[t].extra)
  {
    var th := s.threads[t];
    assert ThreadOk(s, t, th);
    forall i | 0 <= i < |th.region|
      ensures Has(s.index, th.region[i])
    {
      RegionId(s, t, i);
    }
    forall id | id in Ids(th.region)
      ensures id in s.owner && (s.owner[id].Indexed? || s.owner[id] == Doomed(t))
    {
      var i :| 0 <= i < |th.region| && th.region[i].id == id;
      RegionId(s, t, i);
    }
  }

  /** Publishing keeps the invariant. */
  lemma {:induction false} PublishStep(s: State, t: nat)
    requires Inv(s) && Enabled(s, t, Publish)
    ensures Inv(Next(s, t, Publish))
  {
    var th, s' := s.threads[t], Next(s, t, Publish);
    var region, news, extra := th.region, th.news, th.extra;
    assert ThreadOk(s, t, th);
    PublishIs(s, t);
    LocksStep(s, t, Publish);
    PublishIndex(s, s', t, region, news, extra);
    PublishOwners(s, s', t, region, news, extra);
    PublishDoomed(s, s', t, region, news, extra);
    PublishData(s, s', t, region, news, extra);
    PublishPending(s, s', t, region, news, extra);
    forall u | 0 <= u < |s'.threads|
      ensures ThreadOk(s', u, s'.threads[u])
    {
      if u == t {
        PublishSelf(s, s', t, region, news, extra);
      } else {
        PublishOther(s, s', t, u, region, news, extra);
      }
    }
  }
}
