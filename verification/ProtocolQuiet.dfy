// The steps that change only what a thread holds.
module ProtocolQuiet {
  import opened Bytes
  import opened SegmentProtocol
  import opened ProtocolInvariant

  /** Steps that leave the index, the contents and the ids alone. */
  ghost predicate Quiet(a: Action) {
    !a.Write? && !a.Build? && !a.Invalidate? && !a.Publish? && !a.InvalidateRest? && !a.FreeOld?
  }

  /** A lock that can be granted is on a segment that is not given up. */
  lemma {:induction false} GrantedIndexed(s: State, e: Entry, m: Mode)
    requires OwnersOk(s) && DoomedOk(s.owner, s.threads) && Has(s.index, e) && CanGrant(s, e.id, m)
    ensures e.id in s.owner && s.owner[e.id].Indexed?
  {
    assert s.index[e.lower] == e.id;
    ExclusiveExcludes(m);
    assert !Grants(m, OX);
  }

  /** A segment that someone has a lock on is not given up by anyone else. */
  lemma HeldIndexed(s: State, t: nat, e: Entry, m: Mode)
    requires OwnersOk(s) && DoomedOk(s.owner, s.threads) && LocksOk(s.threads) && Has(s.index, e)
    requires t < |s.threads| && Holds(s.threads[t], e.id, m)
    ensures e.id in s.owner && (s.owner[e.id].Indexed? || s.owner[e.id] == Doomed(t))
  {
    assert s.index[e.lower] == e.id;
    ExclusiveExcludes(m);
  }

  lemma RestrictJoin(db: Records, lo: Key, mid: Key, hi: Key)
    requires lo <= mid <= hi
    ensures Restrict(db, lo, mid) + Restrict(db, mid, hi) == Restrict(db, lo, hi)
  {
  }

  /** An accepted region whose last upper bound still holds is in the index as it was seen. */
  lemma AcceptedIn(index: Index, region: seq<Entry>)
    requires IndexOk(index) && Chain(region) && Accepts(index, region) && Has(index, region[|region| - 1])
    ensures AllIn(index, region)
  {
    forall i | 0 <= i < |region|
      ensures Has(index, region[i])
    {
      if i < |region| - 1 {
        assert region[i].upper == region[i + 1].lower;
        assert region[i + 1].lower in index;
      }
    }
  }

  // ------------------------------------------------------------ the thread that moves

  lemma {:induction false} QuietLock(s: State, t: nat, a: Action)
    requires Inv(s) && Enabled(s, t, a) && (a.LockRead? || a.LockWrite? || a.LockNext?)
    ensures ThreadOk(s, t, NextThread(s, t, a))
  {
    assert ThreadOk(s, t, s.threads[t]);
    match a
    case LockRead(e) => GrantedIndexed(s, e, IR);
    case LockWrite(e) => GrantedIndexed(s, e, IW);
    case LockNext(f) =>
      var e := s.threads[t].e;
      assert RefersTo(s.threads[t], e);
      GrantedIndexed(s, f, IR);
      NextIsAdjacent(s.index, e, f);
  }

  /** The segments of a validated region are in the index and not given up. */
  lemma ValidatedEntries(s: State, t: nat)
    requires OwnersOk(s) && DoomedOk(s.owner, s.threads) && LocksOk(s.threads) && t < |s.threads| && s.threads[t].Locking?
    requires s.threads[t].n == |s.threads[t].region| && AllIn(s.index, s.threads[t].region)
    ensures forall e | e in s.threads[t].region :: Has(s.index, e) && e.id in s.owner && s.owner[e.id].Indexed?
  {
    var region := s.threads[t].region;
    assert region[..|region|] == region;
    forall e | e in region
      ensures Has(s.index, e) && e.id in s.owner && s.owner[e.id].Indexed?
    {
      IdsMember(region, e);
      HeldIndexed(s, t, e, O);
    }
  }

  lemma {:induction false} QuietValidate(s: State, t: nat, extra: Records)
    requires Inv(s) && Enabled(s, t, Validate(extra))
    ensures ThreadOk(s, t, NextThread(s, t, Validate(extra)))
  {
    assert LocalOk(s.threads[t]) by {
      assert ThreadOk(s, t, s.threads[t]);
    }
    ValidatedEntries(s, t);
    var region := s.threads[t].region;
    assert Restrict(s.db, Lo(region), Lo(region)) == map[];
  }

  lemma {:induction false} QuietSingle(s: State, t: nat, e: Entry, extra: Records)
    requires Inv(s) && Enabled(s, t, LockSingle(e, extra))
    ensures ThreadOk(s, t, NextThread(s, t, LockSingle(e, extra)))
  {
    GrantedIndexed(s, e, O);
    assert Restrict(s.db, e.lower, e.lower) == map[];
  }

  lemma {:induction false} QuietRead(s: State, t: nat)
    requires Inv(s) && Enabled(s, t, ReadSegment)
    ensures ThreadOk(s, t, NextThread(s, t, ReadSegment))
  {
    var th := s.threads[t];
    assert ThreadOk(s, t, th);
    var e := th.region[th.n];
    assert RefersTo(th, e);
    assert SegmentOk(s, e);
    ChainBounds(th.region, th.n);
    assert HiOf(th.region, th.n) == e.lower;
    RestrictJoin(s.db, Lo(th.region), e.lower, e.upper);
  }

  lemma {:induction false} QuietThread(s: State, t: nat, a: Action)
    requires Inv(s) && Enabled(s, t, a) && Quiet(a)
    ensures ThreadOk(s, t, NextThread(s, t, a))
  {
    assert ThreadOk(s, t, s.threads[t]);
    if a.LockRead? || a.LockWrite? || a.LockNext? {
      QuietLock(s, t, a);
    } else if a.Validate? {
      QuietValidate(s, t, a.extra);
    } else if a.LockSingle? {
      QuietSingle(s, t, a.e, a.extra);
    } else if a.ReadSegment? {
      QuietRead(s, t);
    } else if a.UnlockPrevious? {
      TrailNext(s.threads[t].visited, s.threads[t].e, s.threads[t].f);
    } else if a.Snapshot? {
      DistinctIn(s.index, a.region);
    }
  }

  lemma {:induction false} QuietPending(s: State, t: nat, a: Action)
    requires Inv(s) && Enabled(s, t, a) && Quiet(a)
    ensures AllPending(Next(s, t, a))
  {
    var th' := NextThread(s, t, a);
    assert PendingOk(s.index, s.built, s.threads, s.threads[t]);
    if a.Snapshot? {
      forall i | 0 <= i < |a.region|
        ensures StillAsSeen(s.index, a.region[i]) && NotInNews(s.threads, a.region[i].id)
      {
        IndexedNotInNews(s, a.region[i]);
      }
    }
    PendingMove(s.index, s.built, s.threads, t, th');
  }

  // ------------------------------------------------------------ the whole state

  /** A quiet step keeps the invariant. */
  lemma {:induction false} QuietStep(s: State, t: nat, a: Action)
    requires Inv(s) && Enabled(s, t, a) && Quiet(a)
    ensures Inv(Next(s, t, a))
  {
    var s' := Next(s, t, a);
    assert ThreadOk(s, t, s.threads[t]);
    LocksStep(s, t, a);
    QuietThread(s, t, a);
    QuietPending(s, t, a);
    assert s' == s.(threads := s.threads[t := NextThread(s, t, a)]);
    forall u | 0 <= u < |s'.threads|
      ensures ThreadOk(s', u, s'.threads[u])
    {
      assert ThreadOk(s, u, s'.threads[u]);
    }
  }
}
