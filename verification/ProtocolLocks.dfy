// The lock table over whole runs: what every step acquires and releases, against what threads hold.
module ProtocolLocks {
  import opened SegmentProtocol
  import opened ProtocolInvariant
  import opened ProtocolTheorems
  import L = LockManager

  /** The mode that the lock manager has a lock in; an upgrade is exclusive as soon as it waits. */
  function LockOf(m: Mode): L.SegmentMode {
    match m
    case IR => L.PageRead
    case IW => L.PageWrite
    case O => L.Reorg
    case Draining => L.ReorgExclusive
    case OX => L.ReorgExclusive
  }

  ghost predicate HoldsLock(th: Thread, g: L.Grant) {
    exists m :: Holds(th, g.id, m) && LockOf(m) == g.mode
  }

  lemma HoldsLockModes(th: Thread, id: Id)
    ensures HoldsLock(th, L.Grant(id, L.PageRead)) <==> Holds(th, id, IR)
    ensures HoldsLock(th, L.Grant(id, L.PageWrite)) <==> Holds(th, id, IW)
    ensures HoldsLock(th, L.Grant(id, L.Reorg)) <==> Holds(th, id, O)
    ensures HoldsLock(th, L.Grant(id, L.ReorgExclusive)) <==> Holds(th, id, Draining) || Holds(th, id, OX)
  {
    assert LockOf(IR) == L.PageRead && LockOf(IW) == L.PageWrite && LockOf(O) == L.Reorg;
    assert LockOf(Draining) == L.ReorgExclusive && LockOf(OX) == L.ReorgExclusive;
  }

  // ------------------------------------------------------------ what a step does to the lock table

  ghost function LocksOn(ids: set<Id>, m: L.SegmentMode): set<L.Grant> {
    set id | id in ids :: L.Grant(id, m)
  }

  /** The locks that a step gives back. */
  ghost function Released(s: State, t: nat, a: Action): set<L.Grant>
    requires Enabled(s, t, a)
  {
    var th := s.threads[t];
    match a
    case Unlock => {L.Grant(th.e.id, if th.Reading? then L.PageRead else L.PageWrite)}
    case UnlockPrevious => {L.Grant(th.e.id, L.PageRead)}
    case Abandon => if th.n <= |th.region| then LocksOn(Ids(th.region[..th.n]), L.Reorg) else {}
    case BeginUpgrade => {L.Grant(th.region[th.n].id, L.Reorg)}
    case ReleaseOld => LocksOn(Ids(th.region), L.ReorgExclusive)
    case _ => {}
  }

  /** The locks that a step takes. */
  ghost function Acquired(s: State, t: nat, a: Action): set<L.Grant>
    requires Enabled(s, t, a)
  {
    var th := s.threads[t];
    match a
    case LockRead(e) => {L.Grant(e.id, L.PageRead)}
    case LockWrite(e) => {L.Grant(e.id, L.PageWrite)}
    case LockNext(f) => {L.Grant(f.id, L.PageRead)}
    case LockOne => {L.Grant(th.region[th.n].id, L.Reorg)}
    case LockSingle(e, _) => {L.Grant(e.id, L.Reorg)}
    case BeginUpgrade => {L.Grant(th.region[th.n].id, L.ReorgExclusive)}
    case _ => {}
  }

  /** What releasing and acquiring means for one lock of a thread. */
  ghost predicate Shifts(th: Thread, th': Thread, released: set<L.Grant>, acquired: set<L.Grant>, g: L.Grant) {
    && (HoldsLock(th', g) <==> (HoldsLock(th, g) && g !in released) || g in acquired)
    && (g in released ==> HoldsLock(th, g))
    && (g in acquired ==> !HoldsLock(th, g))
  }

  ghost predicate Moves(s: State, t: nat, a: Action, g: L.Grant)
    requires Enabled(s, t, a)
  {
    Shifts(s.threads[t], NextThread(s, t, a), Released(s, t, a), Acquired(s, t, a), g)
  }

  lemma ShiftsNothing(th: Thread, th': Thread, g: L.Grant)
    requires forall m :: Holds(th', g.id, m) <==> Holds(th, g.id, m)
    ensures Shifts(th, th', {}, {}, g)
  {
  }

  lemma ShiftsAcquire(th: Thread, th': Thread, id: Id, m: Mode, g: L.Grant)
    requires forall k :: Holds(th', g.id, k) <==> Holds(th, g.id, k) || (g.id == id && k == m)
    requires !HoldsLock(th, L.Grant(id, LockOf(m)))
    ensures Shifts(th, th', {}, {L.Grant(id, LockOf(m))}, g)
  {
  }

  lemma {:induction false} MovesSimple(s: State, t: nat, a: Action, g: L.Grant)
    requires Enabled(s, t, a) && (a.LockRead? || a.LockWrite? || a.Unlock? || a.Write? || a.FreeOld? || a.InvalidateRest?)
    ensures Moves(s, t, a, g)
  {
    HoldsLockModes(s.threads[t], g.id);
    HoldsLockModes(NextThread(s, t, a), g.id);
  }

  lemma ScanShifts(e: Entry, f: Entry, visited: seq<Entry>, all: seq<Entry>, g: L.Grant)
    requires e.id != f.id
    ensures Shifts(Reading(e, visited), Coupling(e, f, visited), {}, {L.Grant(f.id, L.PageRead)}, g)
    ensures Shifts(Coupling(e, f, visited), Reading(f, all), {L.Grant(e.id, L.PageRead)}, {}, g)
  {
    HoldsLockModes(Reading(e, visited), g.id);
    HoldsLockModes(Coupling(e, f, visited), g.id);
    HoldsLockModes(Reading(f, all), g.id);
  }

  lemma {:induction false} MovesScan(s: State, t: nat, a: Action, g: L.Grant)
    requires Inv(s) && Enabled(s, t, a) && (a.LockNext? || a.UnlockPrevious?)
    ensures Moves(s, t, a, g)
  {
    var th := s.threads[t];
    assert ThreadOk(s, t, th);
    assert RefersTo(th, th.e);
    var f := if a.LockNext? then a.f else th.f;
    if a.LockNext? {
      NextIsAdjacent(s.index, th.e, f);
    } else {
      assert RefersTo(th, f);
    }
    assert Has(s.index, th.e) && Has(s.index, f);
    ScanShifts(th.e, f, th.visited, th.visited + [f], g);
  }

  lemma InFront(es: seq<Entry>, n: nat)
    requires Distinct(es) && n < |es|
    ensures es[n].id !in Ids(es[..n]) && es[n].id !in Ids(es[n + 1..])
  {
  }

  lemma LockShifts(region: seq<Entry>, n: nat, since: nat, g: L.Grant)
    requires n < |region| && Distinct(region)
    ensures Shifts(Locking(region, n, since), Locking(region, n + 1, since), {}, {L.Grant(region[n].id, L.Reorg)}, g)
  {
    InFront(region, n);
    IdsNext(region, n);
    HoldsLockModes(Locking(region, n, since), region[n].id);
    ShiftsAcquire(Locking(region, n, since), Locking(region, n + 1, since), region[n].id, O, g);
  }

  lemma AbandonShifts(region: seq<Entry>, n: nat, since: nat, g: L.Grant)
    requires n <= |region|
    ensures Shifts(Locking(region, n, since), Idle, LocksOn(Ids(region[..n]), L.Reorg), {}, g)
  {
    HoldsLockModes(Locking(region, n, since), g.id);
    HoldsLockModes(Idle, g.id);
  }

  lemma ValidateShifts(region: seq<Entry>, since: nat, extra: Records, g: L.Grant)
    ensures Shifts(Locking(region, |region|, since), Rewriting(region, 0, map[], extra), {}, {}, g)
  {
    ShiftsNothing(Locking(region, |region|, since), Rewriting(region, 0, map[], extra), g);
  }

  lemma FirstShifts(region: seq<Entry>, since: nat, e: Entry, extra: Records, g: L.Grant)
    ensures Shifts(Idle, Locking(region, 0, since), {}, {}, g)
    ensures Shifts(Idle, Rewriting([e], 0, map[], extra), {}, {L.Grant(e.id, L.Reorg)}, g)
  {
    IdsOne(e);
    ShiftsNothing(Idle, Locking(region, 0, since), g);
    ShiftsAcquire(Idle, Rewriting([e], 0, map[], extra), e.id, O, g);
  }

  lemma {:induction false} MovesLocking(s: State, t: nat, a: Action, g: L.Grant)
    requires Enabled(s, t, a) && LocalOk(s.threads[t]) && (a.LockOne? || a.Abandon? || a.Validate?)
    ensures Moves(s, t, a, g)
  {
    var th := s.threads[t];
    if a.LockOne? {
      LockShifts(th.region, th.n, th.since, g);
    } else if a.Abandon? {
      AbandonShifts(th.region, th.n, th.since, g);
    } else {
      ValidateShifts(th.region, th.since, a.extra, g);
    }
  }

  lemma MovesFirst(s: State, t: nat, a: Action, g: L.Grant)
    requires Enabled(s, t, a) && (a.Snapshot? || a.LockSingle?)
    ensures Moves(s, t, a, g)
  {
    if a.Snapshot? {
      FirstShifts(a.region, |s.built|, Entry(0, 0, 0), map[], g);
    } else {
      FirstShifts([], 0, a.e, a.extra, g);
    }
  }

  /** The ids of a region that is in the index, as a rewrite holds it. */
  lemma {:induction false} RegionDistinct(s: State, t: nat)
    requires IndexOk(s.index) && t < |s.threads| && ThreadOk(s, t, s.threads[t]) && s.threads[t].Upgrading?
    ensures Distinct(s.threads[t].region)
  {
    var th := s.threads[t];
    forall i | 0 <= i < |th.region|
      ensures Has(s.index, th.region[i])
    {
      assert RefersTo(th, th.region[i]);
    }
    DistinctIn(s.index, th.region);
  }

  lemma RewriteShifts(region: seq<Entry>, n: nat, buf: Records, extra: Records, news: seq<Entry>, g: L.Grant)
    ensures Shifts(Rewriting(region, n, buf, extra), Upgrading(region, news, extra, 0, false), {}, {}, g)
    ensures Shifts(Upgrading(region, news, extra, |region|, false), Published(region), {}, {}, g)
  {
    ShiftsNothing(Rewriting(region, n, buf, extra), Upgrading(region, news, extra, 0, false), g);
    ShiftsNothing(Upgrading(region, news, extra, |region|, false), Published(region), g);
  }

  lemma ReleaseShifts(region: seq<Entry>, g: L.Grant)
    ensures Shifts(Published(region), Freeing(region), LocksOn(Ids(region), L.ReorgExclusive), {}, g)
  {
    HoldsLockModes(Published(region), g.id);
    HoldsLockModes(Freeing(region), g.id);
  }

  lemma {:induction false} MovesRewrite(s: State, t: nat, a: Action, g: L.Grant)
    requires Inv(s) && Enabled(s, t, a)
    requires a.ReadSegment? || a.Build? || a.Invalidate? || a.Publish? || a.ReleaseOld?
    ensures Moves(s, t, a, g)
  {
    var th, th' := s.threads[t], NextThread(s, t, a);
    assert LocalOk(th) by {
      assert ThreadOk(s, t, th);
    }
    match a
    case ReadSegment => ShiftsNothing(th, th', g);
    case Build(news) => RewriteShifts(th.region, th.n, th.buf, th.extra, news, g);
    case Invalidate(_) => ShiftsNothing(th, th', g);
    case Publish => RewriteShifts(th.region, 0, map[], th.extra, th.news, g);
    case ReleaseOld => ReleaseShifts(th.region, g);
  }

  /** The locks of a rewrite at one of its old segments. */
  lemma UpgradingHolds(region: seq<Entry>, news: seq<Entry>, extra: Records, n: nat, id: Id)
    requires n < |region| && Distinct(region)
    ensures var th := Upgrading(region, news, extra, n, false); var x := region[n].id;
            && (Holds(th, id, O) <==> id == x || id in Ids(region[n + 1..])) && (Holds(th, id, OX) <==> id in Ids(region[..n]))
    ensures region[n].id !in Ids(region[..n]) && region[n].id !in Ids(region[n + 1..])
    ensures var th := Upgrading(region, news, extra, n, true);
            && (Holds(th, id, O) <==> id in Ids(region[n + 1..])) && (Holds(th, id, OX) <==> id in Ids(region[..n]))
            && (Holds(th, id, Draining) <==> id == region[n].id)
    ensures var th := Upgrading(region, news, extra, n + 1, false);
            && (Holds(th, id, O) <==> id in Ids(region[n + 1..]))
            && (Holds(th, id, OX) <==> id == region[n].id || id in Ids(region[..n]))
  {
    InFront(region, n);
    IdsRest(region, n);
    IdsNext(region, n);
  }

  lemma BeginShifts(region: seq<Entry>, news: seq<Entry>, extra: Records, n: nat, g: L.Grant)
    requires n < |region| && Distinct(region)
    ensures var x := region[n].id;
            Shifts(Upgrading(region, news, extra, n, false), Upgrading(region, news, extra, n, true),
                   {L.Grant(x, L.Reorg)}, {L.Grant(x, L.ReorgExclusive)}, g)
  {
    UpgradingHolds(region, news, extra, n, g.id);
    UpgradingHolds(region, news, extra, n, region[n].id);
    HoldsLockModes(Upgrading(region, news, extra, n, false), g.id);
    HoldsLockModes(Upgrading(region, news, extra, n, true), g.id);
  }

  lemma FinishShifts(region: seq<Entry>, news: seq<Entry>, extra: Records, n: nat, g: L.Grant)
    requires n < |region| && Distinct(region)
    ensures Shifts(Upgrading(region, news, extra, n, true), Upgrading(region, news, extra, n + 1, false), {}, {}, g)
  {
    UpgradingHolds(region, news, extra, n, g.id);
    HoldsLockModes(Upgrading(region, news, extra, n, true), g.id);
    HoldsLockModes(Upgrading(region, news, extra, n + 1, false), g.id);
  }

  lemma {:induction false} MovesUpgrade(s: State, t: nat, a: Action, g: L.Grant)
    requires Inv(s) && Enabled(s, t, a) && (a.BeginUpgrade? || a.FinishUpgrade?)
    ensures Moves(s, t, a, g)
  {
    var th := s.threads[t];
    assert ThreadOk(s, t, th);
    RegionDistinct(s, t);
    if a.BeginUpgrade? {
      BeginShifts(th.region, th.news, th.extra, th.n, g);
    } else {
      FinishShifts(th.region, th.news, th.extra, th.n, g);
    }
  }

  lemma {:induction false} MovesAny(s: State, t: nat, a: Action, g: L.Grant)
    requires Inv(s) && Enabled(s, t, a)
    ensures Moves(s, t, a, g)
  {
    if a.LockRead? || a.LockWrite? || a.Unlock? || a.Write? || a.FreeOld? || a.InvalidateRest? {
      MovesSimple(s, t, a, g);
    } else if a.LockNext? || a.UnlockPrevious? {
      MovesScan(s, t, a, g);
    } else if a.Snapshot? || a.LockSingle? {
      MovesFirst(s, t, a, g);
    } else if a.LockOne? || a.Abandon? || a.Validate? {
      assert ThreadOk(s, t, s.threads[t]);
      MovesLocking(s, t, a, g);
    } else if a.BeginUpgrade? || a.FinishUpgrade? {
      MovesUpgrade(s, t, a, g);
    } else {
      MovesRewrite(s, t, a, g);
    }
  }

  // ------------------------------------------------------------ counting

  ghost function One(b: bool): nat {
    if b then 1 else 0
  }

  /** How many threads hold the lock. */
  ghost function Holders(threads: seq<Thread>, g: L.Grant): nat {
    if |threads| == 0 then 0
    else Holders(threads[..|threads| - 1], g) + One(HoldsLock(threads[|threads| - 1], g))
  }

  lemma {:induction false} HoldersReplace(threads: seq<Thread>, t: nat, th: Thread, g: L.Grant)
    requires t < |threads|
    ensures Holders(threads[t := th], g) + One(HoldsLock(threads[t], g)) == Holders(threads, g) + One(HoldsLock(th, g))
    decreases |threads|
  {
    var n := |threads| - 1;
    if t == n {
      assert threads[t := th][..n] == threads[..n];
    } else {
      HoldersReplace(threads[..n], t, th, g);
      assert threads[t := th][..n] == threads[..n][t := th];
    }
  }

  lemma {:induction false} HoldersPositive(threads: seq<Thread>, g: L.Grant)
    ensures Holders(threads, g) > 0 <==> exists u :: 0 <= u < |threads| && HoldsLock(threads[u], g)
  {
    if |threads| > 0 {
      var n := |threads| - 1;
      HoldersPositive(threads[..n], g);
      if u :| 0 <= u < |threads| && HoldsLock(threads[u], g) {
        assert u < n ==> threads[..n][u] == threads[u];
      }
    }
  }

  /** The table counts the holders of every lock. */
  ghost predicate TableOk(held: multiset<L.Grant>, threads: seq<Thread>) {
    forall g :: held[g] == Holders(threads, g)
  }

  ghost function TableAfter(held: multiset<L.Grant>, s: State, t: nat, a: Action): multiset<L.Grant>
    requires Enabled(s, t, a)
  {
    held - multiset(Released(s, t, a)) + multiset(Acquired(s, t, a))
  }

  lemma NextThreads(s: State, t: nat, a: Action)
    requires Enabled(s, t, a)
    ensures Next(s, t, a).threads == s.threads[t := NextThread(s, t, a)]
  {
  }

  /** Every step leaves a table that counts the holders. */
  lemma {:induction false} TableStep(held: multiset<L.Grant>, s: State, t: nat, a: Action)
    requires Inv(s) && Enabled(s, t, a) && TableOk(held, s.threads)
    ensures TableOk(TableAfter(held, s, t, a), Next(s, t, a).threads)
  {
    NextThreads(s, t, a);
    forall g
      ensures TableAfter(held, s, t, a)[g] == Holders(s.threads[t := NextThread(s, t, a)], g)
    {
      MovesAny(s, t, a, g);
      HoldersReplace(s.threads, t, NextThread(s, t, a), g);
      TableAt(held, Released(s, t, a), Acquired(s, t, a), g);
      assert held[g] == Holders(s.threads, g);
    }
  }

  lemma TableAt(held: multiset<L.Grant>, released: set<L.Grant>, acquired: set<L.Grant>, g: L.Grant)
    requires g in released ==> held[g] > 0
    ensures (held - multiset(released) + multiset(acquired))[g] == held[g] - One(g in released) + One(g in acquired)
  {
  }

  // ------------------------------------------------------------ runs

  /** The lock table after a run. */
  ghost function Table(held: multiset<L.Grant>, s: State, moves: seq<Move>): multiset<L.Grant>
    requires IsRun(s, moves)
    decreases |moves|
  {
    if |moves| == 0 then held
    else
      var t, a := moves[0].t, moves[0].a;
      Table(TableAfter(held, s, t, a), Next(s, t, a), moves[1..])
  }

  lemma {:induction false} TableRun(held: multiset<L.Grant>, s: State, moves: seq<Move>)
    requires Inv(s) && IsRun(s, moves) && TableOk(held, s.threads)
    ensures TableOk(Table(held, s, moves), After(s, moves).threads)
    decreases |moves|
  {
    if |moves| > 0 {
      var t, a := moves[0].t, moves[0].a;
      StepInv(s, t, a);
      TableStep(held, s, t, a);
      TableRun(TableAfter(held, s, t, a), Next(s, t, a), moves[1..]);
    }
  }

  lemma {:induction false} IdleHolders(threads: seq<Thread>, g: L.Grant)
    requires forall u | 0 <= u < |threads| :: threads[u].Idle?
    ensures Holders(threads, g) == 0
    decreases |threads|
  {
    if |threads| > 0 {
      IdleHolders(threads[..|threads| - 1], g);
    }
  }

  /** Over every run, the table that acquisitions and releases leave counts exactly the holders of each lock. */
  lemma {:induction false} TableCounts(s: State, moves: seq<Move>, g: L.Grant)
    requires Initial(s) && IsRun(s, moves)
    ensures Table(multiset{}, s, moves)[g] == Holders(After(s, moves).threads, g)
    ensures Table(multiset{}, s, moves)[g] > 0 <==>
              exists u :: 0 <= u < |After(s, moves).threads| && HoldsLock(After(s, moves).threads[u], g)
  {
    forall h
      ensures multiset{}[h] == Holders(s.threads, h)
    {
      IdleHolders(s.threads, h);
    }
    TableRun(multiset{}, s, moves);
    HoldersPositive(After(s, moves).threads, g);
  }

  /** Once every thread is done, every lock that was taken has been released. */
  lemma {:induction false} AllReleased(s: State, moves: seq<Move>)
    requires Initial(s) && IsRun(s, moves) && forall u | 0 <= u < |After(s, moves).threads| :: After(s, moves).threads[u].Idle?
    ensures Table(multiset{}, s, moves) == multiset{}
  {
    forall g
      ensures Table(multiset{}, s, moves)[g] == 0
    {
      TableCounts(s, moves, g);
      IdleHolders(After(s, moves).threads, g);
    }
  }

  /** The lock manager's table decides as the protocol does. */
  lemma CanGrantIff(held: multiset<L.Grant>, s: State, id: Id, m: Mode)
    requires TableOk(held, s.threads) && (m == IR || m == IW || m == O)
    ensures CanGrant(s, id, m) <==> L.Grantable(held, id, LockOf(m))
  {
    forall k
      ensures held[L.Grant(id, k)] > 0 <==> exists u :: 0 <= u < |s.threads| && HoldsLock(s.threads[u], L.Grant(id, k))
    {
      HoldersPositive(s.threads, L.Grant(id, k));
    }
    if CanGrant(s, id, m) {
      forall k: L.SegmentMode | held[L.Grant(id, k)] > 0
        ensures L.MayJoin(LockOf(m), k)
      {
        var u :| 0 <= u < |s.threads| && HoldsLock(s.threads[u], L.Grant(id, k));
        var h :| Holds(s.threads[u], id, h) && LockOf(h) == k;
        assert Grants(m, h);
      }
    }
    if L.Grantable(held, id, LockOf(m)) {
      forall u, h | 0 <= u < |s.threads| && Holds(s.threads[u], id, h)
        ensures Grants(m, h)
      {
        assert HoldsLock(s.threads[u], L.Grant(id, LockOf(h)));
        assert held[L.Grant(id, LockOf(h))] > 0;
        assert L.MayJoin(LockOf(m), LockOf(h));
      }
    }
  }
}
