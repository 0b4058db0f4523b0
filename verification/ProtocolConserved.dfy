// No segment id is lost: each is free, in the index, or in the hands of one rewrite.
module ProtocolConserved {
  import opened SegmentProtocol
  import opened ProtocolInvariant
  import opened ProtocolPublish
  import opened ProtocolTheorems

  /** The ids that a rewrite still has to put into the index or to free. */
  ghost function Owned(th: Thread): set<Id> {
    match th
    case Upgrading(_, news, _, _, _) => Ids(news)
    case Published(region) => Ids(region)
    case Freeing(region) => Ids(region)
    case _ => {}
  }

  ghost predicate InIndex(index: Index, id: Id) {
    exists l :: l in index && index[l] == id
  }

  ghost predicate Owns(threads: seq<Thread>, t: nat, id: Id) {
    t < |threads| && id in Owned(threads[t])
  }

  /** The id is where its owner says. */
  ghost predicate Kept(index: Index, threads: seq<Thread>, id: Id, o: Owner) {
    match o
    case Free => true
    case Indexed => InIndex(index, id)
    case Doomed(_) => InIndex(index, id)
    case Private(t) => Owns(threads, t, id)
  }

  ghost predicate AllKept(s: State) {
    forall id | id in s.owner :: Kept(s.index, s.threads, id, s.owner[id])
  }

  // ------------------------------------------------------------ steps

  /** Most steps move no id. */
  lemma SameOwned(s: State, t: nat, a: Action)
    requires Enabled(s, t, a) && !a.Build? && !a.Publish? && !a.FreeOld?
    ensures Owned(NextThread(s, t, a)) == Owned(s.threads[t]) && Next(s, t, a).index == s.index
    ensures !a.Invalidate? ==> Next(s, t, a).owner == s.owner
  {
  }

  lemma StillOwned(threads: seq<Thread>, t: nat, th: Thread, u: nat, id: Id)
    requires t < |threads| && Owns(threads, u, id) && (u == t ==> id in Owned(th))
    ensures Owns(threads[t := th], u, id)
  {
  }

  lemma StillKept(index: Index, threads: seq<Thread>, t: nat, th: Thread, id: Id, o: Owner)
    requires t < |threads| && Kept(index, threads, id, o) && (o == Private(t) ==> id in Owned(th))
    ensures Kept(index, threads[t := th], id, o)
  {
    if o.Private? {
      StillOwned(threads, t, th, o.t, id);
    }
  }

  /** A segment that a thread relies on is in the index. */
  lemma RegionIndexed(s: State, t: nat, i: nat)
    requires Inv(s) && t < |s.threads| && s.threads[t].Upgrading? && i < |s.threads[t].region|
    ensures Has(s.index, s.threads[t].region[i]) && InIndex(s.index, s.threads[t].region[i].id)
  {
    var th := s.threads[t];
    assert ThreadOk(s, t, th) && RefersTo(th, th.region[i]);
  }

  lemma MoveKept(s: State, t: nat, a: Action, id: Id)
    requires AllKept(s) && Enabled(s, t, a) && !a.Build? && !a.Publish? && !a.FreeOld? && !a.Invalidate? && id in s.owner
    ensures Kept(s.index, Next(s, t, a).threads, id, s.owner[id])
  {
    SameOwned(s, t, a);
    StillKept(s.index, s.threads, t, NextThread(s, t, a), id, s.owner[id]);
  }

  lemma InvalidateKept(s: State, t: nat, a: Action, id: Id)
    requires Inv(s) && AllKept(s) && Enabled(s, t, a) && a.Invalidate? && id in Next(s, t, a).owner
    ensures Kept(s.index, Next(s, t, a).threads, id, Next(s, t, a).owner[id])
  {
    if id == s.threads[t].region[a.i].id {
      RegionIndexed(s, t, a.i);
    } else {
      StillKept(s.index, s.threads, t, NextThread(s, t, a), id, s.owner[id]);
    }
  }

  lemma BuildKept(s: State, t: nat, a: Action, id: Id)
    requires AllKept(s) && Enabled(s, t, a) && a.Build? && id in Next(s, t, a).owner
    ensures Kept(s.index, Next(s, t, a).threads, id, Next(s, t, a).owner[id])
  {
    if id !in Ids(a.news) {
      StillKept(s.index, s.threads, t, NextThread(s, t, a), id, s.owner[id]);
    }
  }

  lemma FreeKept(s: State, t: nat, a: Action, id: Id)
    requires AllKept(s) && Enabled(s, t, a) && a.FreeOld? && id in Next(s, t, a).owner
    ensures Kept(s.index, Next(s, t, a).threads, id, Next(s, t, a).owner[id])
  {
    if id !in Ids(s.threads[t].region) {
      StillKept(s.index, s.threads, t, Idle, id, s.owner[id]);
    }
  }

  lemma PublishSwaps(s: State, t: nat)
    requires Inv(s) && Enabled(s, t, Publish)
    ensures Swap(s.index, Next(s, t, Publish).index, s.threads[t].region, s.threads[t].news)
  {
    var th := s.threads[t];
    assert ThreadOk(s, t, th);
    forall i | 0 <= i < |th.region|
      ensures Has(s.index, th.region[i])
    {
      RegionIndexed(s, t, i);
    }
  }

  lemma SwapKeepsId(index: Index, index': Index, region: seq<Entry>, news: seq<Entry>, id: Id)
    requires Swap(index, index', region, news) && InIndex(index, id) && id !in Ids(region)
    ensures InIndex(index', id)
  {
    var l :| l in index && index[l] == id;
    var e := EntryFor(index, l);
    assert e.lower == l;
    if e in region {
      IdsMember(region, e);
    }
    SwapKeepsOther(index, index', region, news, e);
  }

  lemma SwapHasId(index: Index, index': Index, region: seq<Entry>, news: seq<Entry>, id: Id)
    requires Swap(index, index', region, news) && id in Ids(news)
    ensures InIndex(index', id)
  {
    var i :| 0 <= i < |news| && news[i].id == id;
    SwapHasNew(index, index', region, news, i);
  }

  /** Who has an id once the region is exchanged. */
  ghost function OwnerAfter(t: nat, region: seq<Entry>, news: seq<Entry>, id: Id, o: Owner): Owner {
    if id in Ids(news) then Indexed else if id in Ids(region) then Private(t) else o
  }

  lemma SwapKept(index: Index, index': Index, region: seq<Entry>, news: seq<Entry>, threads: seq<Thread>, t: nat, id: Id, o: Owner)
    requires Swap(index, index', region, news) && t < |threads| && Owned(threads[t]) == Ids(news)
    requires id !in Ids(news) && id !in Ids(region) ==> Kept(index, threads, id, o)
    ensures Kept(index', threads[t := Published(region)], id, OwnerAfter(t, region, news, id, o))
  {
    if id in Ids(news) {
      SwapHasId(index, index', region, news, id);
    } else if id !in Ids(region) {
      if InIndex(index, id) {
        SwapKeepsId(index, index', region, news, id);
      }
      StillKept(index, threads, t, Published(region), id, o);
    }
  }

  lemma PublishKept(s: State, t: nat, id: Id)
    requires Inv(s) && AllKept(s) && Enabled(s, t, Publish) && id in Next(s, t, Publish).owner
    ensures Kept(Next(s, t, Publish).index, Next(s, t, Publish).threads, id, Next(s, t, Publish).owner[id])
  {
    var th := s.threads[t];
    PublishSwaps(s, t);
    SwapKept(s.index, Next(s, t, Publish).index, th.region, th.news, s.threads, t, id, if id in s.owner then s.owner[id] else Free);
  }

  /** Every step keeps track of all ids, and forgets none. */
  lemma StepKept(s: State, t: nat, a: Action)
    requires Inv(s) && AllKept(s) && Enabled(s, t, a)
    ensures AllKept(Next(s, t, a)) && s.owner.Keys <= Next(s, t, a).owner.Keys
    ensures a.Build? ==> Ids(a.news) <= Next(s, t, a).owner.Keys
  {
    var s' := Next(s, t, a);
    forall id | id in s'.owner
      ensures Kept(s'.index, s'.threads, id, s'.owner[id])
    {
      if a.Build? {
        BuildKept(s, t, a, id);
      } else if a.Publish? {
        PublishKept(s, t, id);
      } else if a.FreeOld? {
        FreeKept(s, t, a, id);
      } else if a.Invalidate? {
        InvalidateKept(s, t, a, id);
      } else {
        SameOwned(s, t, a);
        MoveKept(s, t, a, id);
      }
    }
  }

  // ------------------------------------------------------------ runs

  lemma {:induction false} RunKept(s: State, moves: seq<Move>)
    requires Inv(s) && AllKept(s) && IsRun(s, moves)
    ensures AllKept(After(s, moves)) && s.owner.Keys <= After(s, moves).owner.Keys
    decreases |moves|
  {
    if |moves| > 0 {
      var t, a := moves[0].t, moves[0].a;
      StepInv(s, t, a);
      StepKept(s, t, a);
      RunKept(Next(s, t, a), moves[1..]);
    }
  }

  /** What a thread owns is neither free nor in the index, and nobody else owns it. */
  lemma OwnedApart(s: State, t: nat, id: Id)
    requires Inv(s) && Owns(s.threads, t, id)
    ensures id in s.owner && s.owner[id] == Private(t) && id !in s.free && !InIndex(s.index, id)
  {
    assert ThreadOk(s, t, s.threads[t]);
  }

  lemma OneOwner(s: State, t: nat, u: nat, id: Id)
    requires Inv(s) && Owns(s.threads, t, id) && Owns(s.threads, u, id)
    ensures t == u
  {
    OwnedApart(s, t, id);
    OwnedApart(s, u, id);
  }

  lemma KeptSomewhere(s: State, id: Id)
    requires Inv(s) && AllKept(s) && id in s.owner
    ensures id in s.free || InIndex(s.index, id) || exists t :: Owns(s.threads, t, id)
  {
    assert Kept(s.index, s.threads, id, s.owner[id]);
  }

  /** Over every run, each id that was ever used is free, in the index or owned by a rewrite, and only one of these. */
  lemma {:induction false} EveryIdOnce(s: State, moves: seq<Move>, s': State, id: Id)
    requires Leads(s, moves, s') && AllKept(s)
    ensures id in s.owner ==> id in s'.owner
    ensures id in s'.owner ==> id in s'.free || InIndex(s'.index, id) || exists t :: Owns(s'.threads, t, id)
    ensures !(id in s'.free && InIndex(s'.index, id))
    ensures forall t | Owns(s'.threads, t, id) :: id !in s'.free && !InIndex(s'.index, id)
    ensures forall t, u | Owns(s'.threads, t, id) && Owns(s'.threads, u, id) :: t == u
  {
    RunInv(s, moves);
    RunKept(s, moves);
    if id in s'.owner {
      KeptSomewhere(s', id);
    }
    forall t | Owns(s'.threads, t, id)
      ensures id !in s'.free && !InIndex(s'.index, id)
    {
      OwnedApart(s', t, id);
    }
    forall t, u | Owns(s'.threads, t, id) && Owns(s'.threads, u, id)
      ensures t == u
    {
      OneOwner(s', t, u, id);
    }
  }

  /** Once every thread is done, every id that was ever used is in the index or free again. */
  lemma {:induction false} NothingLeaks(s: State, moves: seq<Move>, s': State, id: Id)
    requires Leads(s, moves, s') && AllKept(s) && id in s'.owner
    requires forall u | 0 <= u < |s'.threads| :: s'.threads[u].Idle?
    ensures id in s'.free <==> !InIndex(s'.index, id)
  {
    EveryIdOnce(s, moves, s', id);
  }
}
