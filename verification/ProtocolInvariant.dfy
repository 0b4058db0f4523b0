// What every step of the segment protocol keeps.
module ProtocolInvariant {
  import opened Bytes
  import opened SegmentProtocol

  // ------------------------------------------------------------ the invariant

  /** Granted locks respect the compatibility table. */
  ghost predicate LocksOk(threads: seq<Thread>) {
    forall t, u, id, m, k |
      0 <= t < |threads| && 0 <= u < |threads| && t != u && Holds(threads[t], id, m) && Holds(threads[u], id, k) ::
      Compatible(m, k)
  }

  /** The index entries that a thread relies on. */
  ghost predicate RefersTo(th: Thread, e: Entry) {
    match th
    case Reading(e', _) => e == e'
    case Writing(e') => e == e'
    case Coupling(e', f, _) => e == e' || e == f
    case Rewriting(region, _, _, _) => e in region
    case Upgrading(region, _, _, _, _) => e in region
    case _ => false
  }

  /** The segments that a scan visited follow one another without a gap, up to where it is. */
  ghost predicate Trail(visited: seq<Entry>, e: Entry) {
    Chain(visited) && visited[|visited| - 1] == e
  }

  lemma TrailNext(visited: seq<Entry>, e: Entry, f: Entry)
    requires Trail(visited, e) && f.lower == e.upper && f.lower < f.upper
    ensures Trail(visited + [f], f)
  {
    var all := visited + [f];
    forall i | 0 <= i < |all| - 1
      ensures all[i].upper == all[i + 1].lower
    {
      assert all[i] == visited[i];
    }
  }

  ghost predicate LocalOk(th: Thread) {
    match th
    case Reading(e, visited) => Trail(visited, e)
    case Coupling(e, f, visited) => Trail(visited, e) && f.lower == e.upper && f.lower < f.upper
    case Locking(region, n, _) => Chain(region) && n <= |region| && Distinct(region)
    case Rewriting(region, n, _, extra) => Chain(region) && n <= |region| && Within(extra, Lo(region), Hi(region))
    case Upgrading(region, news, extra, n, waiting) =>
      && Chain(region) && Chain(news) && Lo(news) == Lo(region) && Hi(news) == Hi(region) && Distinct(news)
      && n <= |region| && (waiting ==> n < |region|) && Within(extra, Lo(region), Hi(region))
    case _ => true
  }

  /** The entries that a thread relies on are in the index, with the bounds it saw. */
  ghost predicate EntriesOk(index: Index, owner: map<Id, Owner>, t: nat, th: Thread) {
    forall e | RefersTo(th, e) ::
      && Has(index, e) && e.id in owner
      && (owner[e.id].Indexed? || (th.Upgrading? && owner[e.id] == Doomed(t)))
  }

  /** What a rewrite has read or written is what it would read or write now. */
  ghost predicate CopiesOk(contents: map<Id, Records>, db: Records, th: Thread) {
    match th
    case Rewriting(region, n, buf, _) => |region| > 0 && n <= |region| ==> buf == Restrict(db, Lo(region), HiOf(region, n))
    case Upgrading(region, news, extra, _, _) =>
      |region| > 0 ==>
        forall i | 0 <= i < |news| :: NewOk(contents, Restrict(db, Lo(region), Hi(region)) + extra, news[i])
    case _ => true
  }

  ghost predicate NewOk(contents: map<Id, Records>, merged: Records, e: Entry) {
    e.id in contents && contents[e.id] == Restrict(merged, e.lower, e.upper) && e.lower in merged
  }

  /** The ids that only this thread knows. */
  ghost predicate PrivateOk(owner: map<Id, Owner>, t: nat, th: Thread) {
    match th
    case Upgrading(_, news, _, _, _) => AllOwned(owner, Ids(news), Private(t))
    case Published(region) => AllOwned(owner, Ids(region), Private(t))
    case Freeing(region) => AllOwned(owner, Ids(region), Private(t))
    case _ => true
  }

  ghost predicate AllOwned(owner: map<Id, Owner>, ids: set<Id>, o: Owner) {
    forall id | id in ids :: id in owner && owner[id] == o
  }

  ghost predicate ThreadOk(s: State, t: nat, th: Thread) {
    && LocalOk(th)
    && EntriesOk(s.index, s.owner, t, th)
    && CopiesOk(s.contents, s.db, th)
    && PrivateOk(s.owner, t, th)
  }

  /** Indexed segments, and only they, are neither free nor private. */
  ghost predicate OwnersOk(s: State) {
    && (forall l | l in s.index :: s.index[l] in s.owner && (s.owner[s.index[l]].Indexed? || s.owner[s.index[l]].Doomed?))
    && (forall id | id in s.free :: id in s.owner && s.owner[id].Free?)
    && (forall id | id in s.owner && s.owner[id].Free? :: id in s.free)
  }

  /** A segment is given up only by a rewrite that has all its exclusive locks. */
  ghost predicate DoomedOk(owner: map<Id, Owner>, threads: seq<Thread>) {
    forall id | id in owner && owner[id].Doomed? ::
      && owner[id].t < |threads|
      && Full(threads[owner[id].t])
      && id in Ids(threads[owner[id].t].region)
  }

  ghost predicate Full(th: Thread) {
    th.Upgrading? && th.n == |th.region|
  }

  /** Each segment holds exactly the current records of its range, and one at its lower bound. */
  ghost predicate DataOk(s: State) {
    && (forall l | l in s.index :: l in s.db)
    && (forall e | Has(s.index, e) && e.id in s.owner && s.owner[e.id].Indexed? :: SegmentOk(s, e))
  }

  ghost predicate SegmentOk(s: State, e: Entry) {
    e.id in s.contents && s.contents[e.id] == Restrict(s.db, e.lower, e.upper)
  }

  ghost predicate ThreadsOk(s: State) {
    forall t | 0 <= t < |s.threads| :: ThreadOk(s, t, s.threads[t])
  }

  /** Where a segment that was seen has its id and lower bound still in the index, its upper bound is still right too. */
  ghost predicate StillAsSeen(index: Index, e: Entry) {
    e.lower in index && index[e.lower] == e.id ==> Has(index, e)
  }

  ghost predicate NotInNews(threads: seq<Thread>, id: Id) {
    forall u | 0 <= u < |threads| && threads[u].Upgrading? :: id !in Ids(threads[u].news)
  }

  /** What was seen and not yet validated, as long as no rewrite has used one of its ids again. */
  ghost predicate PendingOk(index: Index, built: seq<set<Id>>, threads: seq<Thread>, th: Thread) {
    th.Locking? ==>
      && th.since <= |built|
      && (NotRebuilt(built, th.since, Ids(th.region)) ==>
            forall i | 0 <= i < |th.region| :: StillAsSeen(index, th.region[i]) && NotInNews(threads, th.region[i].id))
  }

  ghost predicate AllPending(s: State) {
    forall t | 0 <= t < |s.threads| :: PendingOk(s.index, s.built, s.threads, s.threads[t])
  }

  ghost predicate Inv(s: State) {
    && IndexOk(s.index) && OwnersOk(s) && DoomedOk(s.owner, s.threads) && DataOk(s)
    && LocksOk(s.threads) && ThreadsOk(s) && AllPending(s)
  }

  // ------------------------------------------------------------ what was seen and not yet validated

  /** A thread that moves without building or publishing leaves what others have seen alone. */
  lemma PendingMove(index: Index, built: seq<set<Id>>, threads: seq<Thread>, t: nat, th: Thread)
    requires forall u | 0 <= u < |threads| :: PendingOk(index, built, threads, threads[u])
    requires t < |threads| && PendingOk(index, built, threads, th)
    requires th.Upgrading? ==> threads[t].Upgrading? && th.news == threads[t].news
    ensures var threads' := threads[t := th];
            forall u | 0 <= u < |threads'| :: PendingOk(index, built, threads', threads'[u])
  {
    var threads' := threads[t := th];
    forall u | 0 <= u < |threads|
      ensures PendingOk(index, built, threads', threads'[u])
    {
      assert PendingOk(index, built, threads, threads'[u]);
      forall id | NotInNews(threads, id)
        ensures NotInNews(threads', id)
      {
      }
    }
  }

  /** What is in the index is in no rewrite's new segments. */
  lemma IndexedNotInNews(s: State, e: Entry)
    requires OwnersOk(s) && ThreadsOk(s) && Has(s.index, e)
    ensures NotInNews(s.threads, e.id)
  {
    assert s.index[e.lower] == e.id;
    forall u | 0 <= u < |s.threads| && s.threads[u].Upgrading?
      ensures e.id !in Ids(s.threads[u].news)
    {
      assert ThreadOk(s, u, s.threads[u]);
    }
  }

  /** A region that is in the index has each id once. */
  lemma DistinctIn(index: Index, region: seq<Entry>)
    requires IndexOk(index) && Chain(region) && AllIn(index, region)
    ensures Distinct(region)
  {
    forall i, j | 0 <= i < j < |region|
      ensures region[i].id != region[j].id
    {
      ChainRises(region, i, j);
      assert Has(index, region[i]) && Has(index, region[j]);
    }
  }

  lemma {:induction false} ChainRises(es: seq<Entry>, i: nat, j: nat)
    requires Chain(es) && i < j < |es|
    ensures es[i].upper <= es[j].lower
    decreases j
  {
    assert es[j - 1].upper == es[j].lower;
    if i < j - 1 {
      ChainRises(es, i, j - 1);
    }
  }

  // ------------------------------------------------------------ locks

  lemma ExclusiveExcludes(m: Mode)
    ensures !Compatible(m, OX) && !Compatible(OX, m)
  {
  }

  /** Replacing one thread keeps the table if its new locks agree with everyone else's. */
  lemma LocksReplace(threads: seq<Thread>, t: nat, th: Thread)
    requires LocksOk(threads) && t < |threads|
    requires forall u, id, m, k | 0 <= u < |threads| && u != t && Holds(th, id, m) && Holds(threads[u], id, k) :: Compatible(m, k)
    ensures LocksOk(threads[t := th])
  {
    var threads' := threads[t := th];
    forall a, b, id, m, k |
      0 <= a < |threads'| && 0 <= b < |threads'| && a != b && Holds(threads'[a], id, m) && Holds(threads'[b], id, k)
      ensures Compatible(m, k)
    {
      if a == t {
        assert Holds(threads[b], id, k);
      } else if b == t {
        assert Holds(threads[a], id, m);
      } else {
        assert Holds(threads[a], id, m) && Holds(threads[b], id, k);
      }
    }
  }

  /** A thread that holds nothing new keeps the table. */
  lemma LocksFewer(threads: seq<Thread>, t: nat, th: Thread)
    requires LocksOk(threads) && t < |threads|
    requires forall id, m | Holds(th, id, m) :: Holds(threads[t], id, m)
    ensures LocksOk(threads[t := th])
  {
    LocksReplace(threads, t, th);
  }

  /** A thread that gets one more lock, which could be granted, keeps the table. */
  lemma LocksMore(s: State, t: nat, th: Thread, id: Id, m: Mode)
    requires LocksOk(s.threads) && t < |s.threads| && CanGrant(s, id, m)
    requires forall i, k | Holds(th, i, k) :: Holds(s.threads[t], i, k) || (i == id && k == m)
    ensures LocksOk(s.threads[t := th])
  {
    forall u, i, k, k' | 0 <= u < |s.threads| && u != t && Holds(th, i, k) && Holds(s.threads[u], i, k')
      ensures Compatible(k, k')
    {
      assert i == id && k == m ==> Grants(m, k');
    }
    LocksReplace(s.threads, t, th);
  }

  lemma IdsOne(e: Entry)
    ensures Ids([e]) == {e.id}
  {
    assert [e][0].id == e.id;
  }

  lemma IdsNext(es: seq<Entry>, n: nat)
    requires n < |es|
    ensures Ids(es[..n + 1]) == Ids(es[..n]) + {es[n].id}
  {
    var a, b := es[..n + 1], es[..n];
    forall id | id in Ids(a)
      ensures id in Ids(b) + {es[n].id}
    {
      var i :| 0 <= i < |a| && a[i].id == id;
      assert i < n ==> b[i].id == id;
    }
    forall id | id in Ids(b) + {es[n].id}
      ensures id in Ids(a)
    {
      if id in Ids(b) {
        var i :| 0 <= i < |b| && b[i].id == id;
        assert a[i].id == id;
      } else {
        assert a[n].id == id;
      }
    }
  }

  lemma IdsRest(es: seq<Entry>, n: nat)
    requires n < |es|
    ensures Ids(es[n..]) == {es[n].id} + Ids(es[n + 1..])
  {
    var a, b := es[n..], es[n + 1..];
    forall id | id in Ids(a)
      ensures id in {es[n].id} + Ids(b)
    {
      var i :| 0 <= i < |a| && a[i].id == id;
      assert i > 0 ==> b[i - 1].id == id;
    }
    forall id | id in {es[n].id} + Ids(b)
      ensures id in Ids(a)
    {
      if id in Ids(b) {
        var i :| 0 <= i < |b| && b[i].id == id;
        assert a[i + 1].id == id;
      } else {
        assert a[0].id == id;
      }
    }
  }

  lemma IdsMember(es: seq<Entry>, e: Entry)
    requires e in es
    ensures e.id in Ids(es)
  {
    var i :| 0 <= i < |es| && es[i] == e;
    assert es[i].id == e.id;
  }

  /** Waiting for readers: the lock is stronger, but still lets the present readers be. */
  lemma LocksBeginUpgrade(threads: seq<Thread>, t: nat)
    requires LocksOk(threads) && t < |threads| && threads[t].Upgrading? && threads[t].n < |threads[t].region| && !threads[t].waiting
    ensures LocksOk(threads[t := threads[t].(waiting := true)])
  {
    var th := threads[t];
    var th' := th.(waiting := true);
    IdsRest(th.region, th.n);
    assert Holds(th, th.region[th.n].id, O);
    forall u, id, m, k | 0 <= u < |threads| && u != t && Holds(th', id, m) && Holds(threads[u], id, k)
      ensures Compatible(m, k)
    {
      if m == Draining {
        assert Compatible(O, k);
      } else {
        assert Holds(th, id, m);
      }
    }
    LocksReplace(threads, t, th');
  }

  /** Once the readers are gone, nobody else has a lock on the segment. */
  lemma LocksFinishUpgrade(s: State, t: nat)
    requires LocksOk(s.threads) && t < |s.threads| && s.threads[t].Upgrading? && s.threads[t].n < |s.threads[t].region|
    requires s.threads[t].waiting && Drained(s, s.threads[t].region[s.threads[t].n].id)
    ensures LocksOk(s.threads[t := s.threads[t].(n := s.threads[t].n + 1, waiting := false)])
  {
    var th := s.threads[t];
    var th' := th.(n := th.n + 1, waiting := false);
    var x := th.region[th.n].id;
    IdsNext(th.region, th.n);
    assert Holds(th, x, Draining);
    forall u, k | 0 <= u < |s.threads| && u != t
      ensures !Holds(s.threads[u], x, k)
    {
      assert Holds(s.threads[u], x, k) ==> Compatible(Draining, k);
      assert !Holds(s.threads[u], x, IR);
    }
    assert forall id, m | Holds(th', id, m) :: id == x || Holds(th, id, m);
    LocksReplace(s.threads, t, th');
  }

  lemma {:induction false} LocksGranting(s: State, t: nat, a: Action)
    requires LocksOk(s.threads) && Enabled(s, t, a) && LocalOk(s.threads[t])
    requires a.LockRead? || a.LockWrite? || a.LockNext? || a.LockOne? || a.LockSingle?
    ensures LocksOk(Next(s, t, a).threads)
  {
    var th, th' := s.threads[t], NextThread(s, t, a);
    match a
    case LockRead(e) => LocksMore(s, t, th', e.id, IR);
    case LockWrite(e) => LocksMore(s, t, th', e.id, IW);
    case LockNext(f) => LocksMore(s, t, th', f.id, IR);
    case LockOne =>
      IdsNext(th.region, th.n);
      LocksMore(s, t, th', th.region[th.n].id, O);
    case LockSingle(e, _) =>
      IdsOne(e);
      LocksMore(s, t, th', e.id, O);
  }

  lemma {:induction false} LocksOther(s: State, t: nat, a: Action)
    requires LocksOk(s.threads) && Enabled(s, t, a) && LocalOk(s.threads[t])
    requires !(a.LockRead? || a.LockWrite? || a.LockNext? || a.LockOne? || a.LockSingle?)
    requires !a.BeginUpgrade? && !a.FinishUpgrade?
    ensures LocksOk(Next(s, t, a).threads)
  {
    var th, th' := s.threads[t], NextThread(s, t, a);
    LocksFewer(s.threads, t, th');
  }

  /** Every step keeps the compatibility table. */
  lemma LocksStep(s: State, t: nat, a: Action)
    requires LocksOk(s.threads) && Enabled(s, t, a) && LocalOk(s.threads[t])
    ensures LocksOk(Next(s, t, a).threads)
  {
    if a.BeginUpgrade? {
      LocksBeginUpgrade(s.threads, t);
    } else if a.FinishUpgrade? {
      LocksFinishUpgrade(s, t);
    } else if a.LockRead? || a.LockWrite? || a.LockNext? || a.LockOne? || a.LockSingle? {
      LocksGranting(s, t, a);
    } else {
      LocksOther(s, t, a);
    }
  }
}
