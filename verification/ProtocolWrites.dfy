// The steps that write segments or change who owns an id, short of publishing.
module ProtocolWrites {
  import opened Bytes
  import opened SegmentProtocol
  import opened ProtocolInvariant
  import opened ProtocolQuiet

  // ------------------------------------------------------------ who else relies on a segment

  /** A thread has a lock on every segment that it relies on; a rewrite has a reorganisation lock. */
  lemma HeldMode(th: Thread, e: Entry) returns (m: Mode)
    requires RefersTo(th, e) && LocalOk(th)
    ensures Holds(th, e.id, m)
    ensures th.Rewriting? || th.Upgrading? ==> m != IR && m != IW
  {
    match th
    case Reading(_, _) => m := IR;
    case Writing(_) => m := IW;
    case Coupling(_, _, _) => m := IR;
    case Rewriting(region, _, _, _) =>
      m := O;
      IdsMember(region, e);
    case Upgrading(region, _, _, n, waiting) =>
      var i :| 0 <= i < |region| && region[i] == e;
      if i < n {
        m := OX;
        assert region[..n][i] == e;
        IdsMember(region[..n], e);
      } else if i == n && waiting {
        m := Draining;
      } else {
        m := O;
        if waiting {
          assert region[n + 1..][i - n - 1] == e;
          IdsMember(region[n + 1..], e);
        } else {
          assert region[n..][i - n] == e;
          IdsMember(region[n..], e);
        }
      }
  }

  // ------------------------------------------------------------ writing a record

  lemma RestrictPut(db: Records, k: Key, v: Bytestring, lo: Key, hi: Key)
    ensures !(lo <= k < hi) ==> Restrict(Put(db, k, v), lo, hi) == Restrict(db, lo, hi)
    ensures lo <= k < hi ==> Restrict(Put(db, k, v), lo, hi) == Put(Restrict(db, lo, hi), k, v)
  {
  }

  /** A segment with a write lock is not being rewritten by someone else. */
  lemma WriterAlone(threads: seq<Thread>, t: nat, u: nat, f: Entry)
    requires LocksOk(threads) && t < |threads| && u < |threads| && t != u && LocalOk(threads[u])
    requires threads[t].Writing? && (threads[u].Rewriting? || threads[u].Upgrading?) && RefersTo(threads[u], f)
    ensures f.id != threads[t].e.id
  {
    var m := HeldMode(threads[u], f);
    assert Holds(threads[t], threads[t].e.id, IW);
    assert !Compatible(IW, m);
  }

  /** A segment with an exclusive lock is nobody else's business. */
  lemma ExclusiveAlone(threads: seq<Thread>, t: nat, u: nat, id: Id, f: Entry)
    requires LocksOk(threads) && t < |threads| && u < |threads| && t != u && LocalOk(threads[u])
    requires Holds(threads[t], id, OX) && RefersTo(threads[u], f)
    ensures f.id != id
  {
    var m := HeldMode(threads[u], f);
    ExclusiveExcludes(m);
  }

  /** A key of a segment outside a region is outside the region's range. */
  lemma OutsideRegion(index: Index, e: Entry, k: Key, region: seq<Entry>, n: nat)
    requires Has(index, e) && e.Contains(k) && Chain(region) && n <= |region| && AllIn(index, region) && e !in region
    ensures !(Lo(region) <= k < HiOf(region, n))
  {
    if Lo(region) <= k < HiOf(region, n) {
      var i := ChainCovers(region, n, k);
      EntryUnique(index, e, region[i], k);
    }
  }

  /** A writer's key is not in a region that someone else is rewriting. */
  lemma WriteOutside(s: State, t: nat, u: nat, k: Key, n: nat)
    requires LocksOk(s.threads) && ThreadsOk(s) && t < |s.threads| && u < |s.threads| && t != u
    requires s.threads[t].Writing? && s.threads[t].e.Contains(k)
    requires s.threads[u].Rewriting? || s.threads[u].Upgrading?
    requires Chain(s.threads[u].region) && n <= |s.threads[u].region|
    ensures !(Lo(s.threads[u].region) <= k < HiOf(s.threads[u].region, n))
  {
    var e, region := s.threads[t].e, s.threads[u].region;
    assert LocalOk(s.threads[u]) by {
      assert ThreadOk(s, u, s.threads[u]);
    }
    forall i | 0 <= i < |region|
      ensures Has(s.index, region[i]) && region[i] != e
    {
      WriterAlone(s.threads, t, u, region[i]);
    }
    OutsideRegion(s.index, e, k, region, n);
  }

  /** Thread `t` writes a record of a segment that it has locked. */
  ghost predicate Puts(s: State, s': State, t: nat, e: Entry, k: Key, v: Bytestring) {
    && t < |s.threads| && s.threads[t] == Writing(e) && e.Contains(k) && e.id in s.contents
    && s' == s.(contents := s.contents[e.id := Put(s.contents[e.id], k, v)], db := Put(s.db, k, v))
    && Has(s.index, e) && e.id in s.owner && s.owner[e.id].Indexed?
  }

  lemma {:induction false} PutRewriting(s: State, s': State, t: nat, e: Entry, k: Key, v: Bytestring, u: nat)
    requires Puts(s, s', t, e, k, v) && LocksOk(s.threads) && ThreadsOk(s) && u < |s.threads| && s.threads[u].Rewriting?
    ensures CopiesOk(s'.contents, s'.db, s.threads[u])
  {
    var th := s.threads[u];
    assert ThreadOk(s, u, th);
    WriteOutside(s, t, u, k, th.n);
    RestrictPut(s.db, k, v, Lo(th.region), HiOf(th.region, th.n));
  }

  lemma {:induction false} PutUpgrading(s: State, s': State, t: nat, e: Entry, k: Key, v: Bytestring, u: nat)
    requires Puts(s, s', t, e, k, v) && LocksOk(s.threads) && ThreadsOk(s) && u < |s.threads| && s.threads[u].Upgrading?
    ensures CopiesOk(s'.contents, s'.db, s.threads[u])
  {
    var th := s.threads[u];
    assert ThreadOk(s, u, th);
    WriteOutside(s, t, u, k, |th.region|);
    RestrictPut(s.db, k, v, Lo(th.region), Hi(th.region));
    CopiesElsewhere(s.contents, s'.contents, s.db, th);
  }

  lemma {:induction false} PutData(s: State, s': State, t: nat, e: Entry, k: Key, v: Bytestring)
    requires Puts(s, s', t, e, k, v) && IndexOk(s.index) && DataOk(s)
    ensures DataOk(s')
  {
    forall f | Has(s'.index, f) && f.id in s'.owner && s'.owner[f.id].Indexed?
      ensures SegmentOk(s', f)
    {
      assert SegmentOk(s, f);
      RestrictPut(s.db, k, v, f.lower, f.upper);
      if f.id == e.id {
        SameId(s.index, e, f);
      } else if f.Contains(k) {
        EntryUnique(s.index, e, f, k);
      }
    }
  }

  lemma {:induction false} PutInv(s: State, s': State, t: nat, e: Entry, k: Key, v: Bytestring)
    requires Puts(s, s', t, e, k, v) && Inv(s)
    ensures Inv(s')
  {
    PutData(s, s', t, e, k, v);
    forall u | 0 <= u < |s'.threads|
      ensures ThreadOk(s', u, s'.threads[u])
    {
      assert ThreadOk(s, u, s.threads[u]);
      if s.threads[u].Rewriting? {
        PutRewriting(s, s', t, e, k, v, u);
      } else if s.threads[u].Upgrading? {
        PutUpgrading(s, s', t, e, k, v, u);
      }
    }
  }

  /** Writing a record under a write lock keeps the invariant. */
  lemma {:induction false} WriteStep(s: State, t: nat, k: Key, v: Bytestring)
    requires Inv(s) && Enabled(s, t, Write(k, v))
    ensures Inv(Next(s, t, Write(k, v)))
  {
    var e := s.threads[t].e;
    assert RefersTo(s.threads[t], e);
    assert EntriesOk(s.index, s.owner, t, s.threads[t]) by {
      assert ThreadOk(s, t, s.threads[t]);
    }
    assert s.threads[t := s.threads[t]] == s.threads;
    PutInv(s, Next(s, t, Write(k, v)), t, e, k, v);
  }

  /** A thread's copies do not change with the contents of ids that are not its own. */
  lemma CopiesElsewhere(contents: map<Id, Records>, contents': map<Id, Records>, db: Records, th: Thread)
    requires CopiesOk(contents, db, th)
    requires th.Upgrading? ==> forall id | id in Ids(th.news) && id in contents :: id in contents' && contents'[id] == contents[id]
    ensures CopiesOk(contents', db, th)
  {
    if th.Upgrading? && |th.region| > 0 {
      forall i | 0 <= i < |th.news|
        ensures NewOk(contents', Restrict(db, Lo(th.region), Hi(th.region)) + th.extra, th.news[i])
      {
        assert th.news[i].id in Ids(th.news);
        assert NewOk(contents, Restrict(db, Lo(th.region), Hi(th.region)) + th.extra, th.news[i]);
      }
    }
  }

  // ------------------------------------------------------------ freeing

  lemma {:induction false} FreeStep(s: State, t: nat)
    requires Inv(s) && Enabled(s, t, FreeOld)
    ensures Inv(Next(s, t, FreeOld))
  {
    var th, s' := s.threads[t], Next(s, t, FreeOld);
    assert ThreadOk(s, t, th);
    LocksStep(s, t, FreeOld);
    PendingMove(s.index, s.built, s.threads, t, Idle);
    forall u | 0 <= u < |s'.threads|
      ensures ThreadOk(s', u, s'.threads[u])
    {
      if u != t {
        assert ThreadOk(s, u, s.threads[u]);
      }
    }
  }

  /** Thread `t` clears a segment that only it knows. */
  ghost predicate Clears(s: State, s': State, t: nat, x: Id) {
    && s' == s.(contents := s.contents[x := map[]])
    && x in s.owner && s.owner[x] == Private(t) && t < |s.threads| && !s.threads[t].Upgrading?
  }

  lemma ClearData(s: State, s': State, t: nat, x: Id)
    requires Clears(s, s', t, x) && DataOk(s)
    ensures DataOk(s')
  {
    forall f | Has(s'.index, f) && f.id in s'.owner && s'.owner[f.id].Indexed?
      ensures SegmentOk(s', f)
    {
      assert SegmentOk(s, f);
    }
  }

  /** Clearing an old segment after its locks were released keeps the invariant. */
  lemma {:induction false} InvalidateRestStep(s: State, t: nat, i: nat)
    requires Inv(s) && Enabled(s, t, InvalidateRest(i))
    ensures Inv(Next(s, t, InvalidateRest(i)))
  {
    var s', x := Next(s, t, InvalidateRest(i)), s.threads[t].region[i].id;
    assert ThreadOk(s, t, s.threads[t]);
    IdsMember(s.threads[t].region, s.threads[t].region[i]);
    assert s.threads[t := s.threads[t]] == s.threads;
    ClearData(s, s', t, x);
    forall u | 0 <= u < |s'.threads|
      ensures ThreadOk(s', u, s'.threads[u])
    {
    }
  }

  // ------------------------------------------------------------ giving a segment up

  /** The id of an old segment of a rewrite with all its exclusive locks. */
  lemma RegionId(s: State, t: nat, i: nat)
    requires ThreadsOk(s) && t < |s.threads| && Full(s.threads[t]) && i < |s.threads[t].region|
    ensures Has(s.index, s.threads[t].region[i])
    ensures var x := s.threads[t].region[i].id;
            && x in s.owner && (s.owner[x].Indexed? || s.owner[x] == Doomed(t))
            && x in Ids(s.threads[t].region) && Holds(s.threads[t], x, OX)
  {
    var th := s.threads[t];
    assert RefersTo(th, th.region[i]);
    assert th.region[..th.n] == th.region;
    IdsMember(th.region, th.region[i]);
  }

  /** Thread `t` gives segment `x` up. */
  ghost predicate GivesUp(s: State, s': State, t: nat, x: Id) {
    && s' == s.(contents := s.contents[x := map[]], owner := s.owner[x := Doomed(t)])
    && t < |s.threads| && Full(s.threads[t]) && x in Ids(s.threads[t].region) && Holds(s.threads[t], x, OX)
    && x in s.owner && (s.owner[x].Indexed? || s.owner[x] == Doomed(t))
  }

  lemma GiveUpOther(s: State, s': State, t: nat, x: Id, u: nat)
    requires GivesUp(s, s', t, x) && LocksOk(s.threads) && u < |s.threads| && u != t && ThreadOk(s, u, s.threads[u])
    ensures ThreadOk(s', u, s.threads[u])
  {
    var th := s.threads[u];
    forall e | RefersTo(th, e)
      ensures e.id != x
    {
      ExclusiveAlone(s.threads, t, u, x, e);
    }
    CopiesElsewhere(s.contents, s'.contents, s.db, th);
  }

  lemma {:induction false} GiveUpSelf(s: State, s': State, t: nat, x: Id)
    requires GivesUp(s, s', t, x) && ThreadOk(s, t, s.threads[t])
    ensures ThreadOk(s', t, s.threads[t])
  {
    CopiesElsewhere(s.contents, s'.contents, s.db, s.threads[t]);
  }

  lemma GiveUpData(s: State, s': State, t: nat, x: Id)
    requires GivesUp(s, s', t, x) && DataOk(s)
    ensures DataOk(s')
  {
    forall f | Has(s'.index, f) && f.id in s'.owner && s'.owner[f.id].Indexed?
      ensures SegmentOk(s', f)
    {
      assert SegmentOk(s, f);
    }
  }

  lemma GiveUpOwners(s: State, s': State, t: nat, x: Id)
    requires GivesUp(s, s', t, x) && OwnersOk(s) && DoomedOk(s.owner, s.threads)
    ensures OwnersOk(s') && DoomedOk(s'.owner, s.threads)
  {
  }

  lemma {:induction false} GiveUp(s: State, s': State, t: nat, x: Id)
    requires GivesUp(s, s', t, x) && Inv(s)
    ensures Inv(s')
  {
    GiveUpData(s, s', t, x);
    GiveUpOwners(s, s', t, x);
    forall u | 0 <= u < |s'.threads|
      ensures ThreadOk(s', u, s'.threads[u])
    {
      assert ThreadOk(s, u, s.threads[u]);
      if u == t {
        GiveUpSelf(s, s', t, x);
      } else {
        GiveUpOther(s, s', t, x, u);
      }
    }
  }

  lemma {:induction false} InvalidateIs(s: State, t: nat, i: nat)
    requires ThreadsOk(s) && Enabled(s, t, Invalidate(i))
    ensures GivesUp(s, Next(s, t, Invalidate(i)), t, s.threads[t].region[i].id)
  {
    RegionId(s, t, i);
    assert s.threads[t := s.threads[t]] == s.threads;
  }

  /** Giving a segment up under an exclusive lock keeps the invariant. */
  lemma {:induction false} InvalidateStep(s: State, t: nat, i: nat)
    requires Inv(s) && Enabled(s, t, Invalidate(i))
    ensures Inv(Next(s, t, Invalidate(i)))
  {
    InvalidateIs(s, t, i);
    GiveUp(s, Next(s, t, Invalidate(i)), t, s.threads[t].region[i].id);
  }

  // ------------------------------------------------------------ writing the new segments

  lemma {:induction false} WriteSegmentsAt(contents: map<Id, Records>, news: seq<Entry>, merged: Records, i: nat)
    requires i < |news| && Distinct(news)
    ensures news[i].id in WriteSegments(contents, news, merged)
    ensures WriteSegments(contents, news, merged)[news[i].id] == Restrict(merged, news[i].lower, news[i].upper)
    decreases |news|
  {
    if i < |news| - 1 {
      WriteSegmentsAt(contents, news[..|news| - 1], merged, i);
    }
  }

  lemma {:induction false} WriteSegmentsElsewhere(contents: map<Id, Records>, news: seq<Entry>, merged: Records, id: Id)
    requires id !in Ids(news)
    ensures id in WriteSegments(contents, news, merged) <==> id in contents
    ensures id in contents ==> WriteSegments(contents, news, merged)[id] == contents[id]
    decreases |news|
  {
    if |news| > 0 {
      var front := news[..|news| - 1];
      assert news[|news| - 1].id in Ids(news);
      forall j | j in Ids(front)
        ensures j in Ids(news)
      {
        var i :| 0 <= i < |front| && front[i].id == j;
        assert news[i].id == j;
      }
      WriteSegmentsElsewhere(contents, front, merged, id);
    }
  }

  /** The first new segment starts where the region did, because the record at its lower bound is still there. */
  lemma SameStart(s: State, region: seq<Entry>, buf: Records, extra: Records, news: seq<Entry>)
    requires Chain(region) && Chain(news) && Has(s.index, region[0]) && (forall l | l in s.index :: l in s.db)
    requires buf == Restrict(s.db, Lo(region), Hi(region)) && Within(extra, Lo(region), Hi(region))
    requires Lo(news) in buf + extra && (forall k | k in buf + extra :: Lo(news) <= k)
    ensures Lo(news) == Lo(region)
  {
    ChainBounds(region, 0);
    assert Lo(region) in s.db;
    assert Lo(region) in buf + extra;
  }

  /** Thread `t` writes new segments under ids that were free. */
  ghost predicate WritesNew(s: State, s': State, t: nat, news: seq<Entry>, merged: Records) {
    && s' == s.(contents := WriteSegments(s.contents, news, merged), free := s.free - Ids(news),
                owner := SetOwner(s.owner, Ids(news), Private(t)), threads := s'.threads, built := s.built + [Ids(news)])
    && Distinct(news) && (forall i | 0 <= i < |news| :: news[i].id in s.owner ==> s.owner[news[i].id].Free?)
  }

  lemma {:induction false} NewOther(s: State, s': State, t: nat, news: seq<Entry>, merged: Records, u: nat, th: Thread)
    requires WritesNew(s, s', t, news, merged) && ThreadOk(s, u, th)
    ensures EntriesOk(s'.index, s'.owner, u, th) && PrivateOk(s'.owner, u, th) && CopiesOk(s'.contents, s'.db, th)
  {
    forall id | id in Ids(news)
      ensures id in s.owner ==> s.owner[id].Free?
    {
    }
    if th.Upgrading? {
      forall id | id in Ids(th.news) && id in s.contents
        ensures id in s'.contents && s'.contents[id] == s.contents[id]
      {
        WriteSegmentsElsewhere(s.contents, news, merged, id);
      }
    }
    CopiesElsewhere(s.contents, s'.contents, s.db, th);
  }

  lemma NewShared(s: State, s': State, t: nat, news: seq<Entry>, merged: Records)
    requires WritesNew(s, s', t, news, merged) && OwnersOk(s) && DataOk(s)
    ensures OwnersOk(s') && DataOk(s')
  {
    forall id | id in Ids(news)
      ensures id in s.owner ==> s.owner[id].Free?
    {
    }
    forall f | Has(s'.index, f) && f.id in s'.owner && s'.owner[f.id].Indexed?
      ensures SegmentOk(s', f)
    {
      assert SegmentOk(s, f);
      WriteSegmentsElsewhere(s.contents, news, merged, f.id);
    }
  }

  lemma {:induction false} NewSelf(s: State, s': State, t: nat, th: Thread, news: seq<Entry>)
    requires th.Rewriting? && ThreadOk(s, t, th) && th.n == |th.region| && WritesNew(s, s', t, news, Merged(th))
    requires (forall l | l in s.index :: l in s.db) && Chain(news) && Hi(news) == Hi(th.region)
    requires forall i | 0 <= i < |news| :: news[i].lower in Merged(th)
    requires forall k | k in Merged(th) :: Lo(news) <= k
    ensures ThreadOk(s', t, Upgrading(th.region, news, th.extra, 0, false))
  {
    var th' := Upgrading(th.region, news, th.extra, 0, false);
    assert RefersTo(th, th.region[0]);
    SameStart(s, th.region, th.buf, th.extra, news);
    NewOther(s, s', t, news, Merged(th), t, th);
    forall e | RefersTo(th', e)
      ensures RefersTo(th, e)
    {
    }
    forall i | 0 <= i < |news|
      ensures NewOk(s'.contents, Merged(th), news[i])
    {
      WriteSegmentsAt(s.contents, news, Merged(th), i);
    }
  }

  lemma NewDoomed(s: State, s': State, t: nat, news: seq<Entry>, merged: Records)
    requires WritesNew(s, s', t, news, merged) && DoomedOk(s.owner, s.threads)
    requires t < |s.threads| == |s'.threads| && !Full(s.threads[t])
    requires forall u | 0 <= u < |s.threads| && u != t :: s'.threads[u] == s.threads[u]
    ensures DoomedOk(s'.owner, s'.threads)
  {
  }

  /** Who has seen a segment under an id that is built again knows no more of it. */
  lemma NewPending(s: State, s': State, t: nat, news: seq<Entry>, merged: Records, th: Thread)
    requires WritesNew(s, s', t, news, merged) && t < |s.threads| && s'.threads == s.threads[t := th]
    requires AllPending(s) && !th.Locking? && (th.Upgrading? ==> th.news == news)
    ensures AllPending(s')
  {
    forall u | 0 <= u < |s'.threads|
      ensures PendingOk(s'.index, s'.built, s'.threads, s'.threads[u])
    {
      var x := s'.threads[u];
      if u != t && x.Locking? {
        assert PendingOk(s.index, s.built, s.threads, x);
        if NotRebuilt(s'.built, x.since, Ids(x.region)) {
          assert forall i | 0 <= i < |s.built| :: s'.built[i] == s.built[i];
          assert s'.built[|s.built|] == Ids(news);
          forall i | 0 <= i < |x.region|
            ensures NotInNews(s'.threads, x.region[i].id)
          {
            assert x.region[i].id in Ids(x.region);
            assert NotInNews(s.threads, x.region[i].id);
          }
        }
      }
    }
  }

  /** Writing the new segments, which nobody can see yet, keeps the invariant. */
  lemma {:induction false} BuildStep(s: State, t: nat, news: seq<Entry>)
    requires Inv(s) && Enabled(s, t, Build(news))
    ensures Inv(Next(s, t, Build(news)))
  {
    var th, s' := s.threads[t], Next(s, t, Build(news));
    assert ThreadOk(s, t, th);
    LocksStep(s, t, Build(news));
    NewShared(s, s', t, news, Merged(th));
    NewDoomed(s, s', t, news, Merged(th));
    NewPending(s, s', t, news, Merged(th), s'.threads[t]);
    forall u | 0 <= u < |s'.threads|
      ensures ThreadOk(s', u, s'.threads[u])
    {
      if u == t {
        assert news[0].lower in Merged(th);
        NewSelf(s, s', t, th, news);
      } else {
        assert ThreadOk(s, u, s.threads[u]);
        NewOther(s, s', t, news, Merged(th), u, s.threads[u]);
      }
    }
  }
}
