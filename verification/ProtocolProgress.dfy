// No deadlock: whatever has happened, all threads can come to an end.
module ProtocolProgress {
  import opened SegmentProtocol
  import opened ProtocolInvariant
  import opened ProtocolTheorems

  // ------------------------------------------------------------ one thread

  /** How many steps a thread needs at most, not counting those it waits for. */
  ghost function Rank(th: Thread): nat {
    match th
    case Idle => 0
    case Reading(_, _) => 1
    case Writing(_) => 1
    case Coupling(_, _, _) => 2
    case Locking(_, _, _) => 1
    case Rewriting(region, n, _, _) => if n <= |region| then 5 + 2 * |region| + (|region| - n) else 0
    case Upgrading(region, _, _, n, waiting) => if n <= |region| then 3 + 2 * (|region| - n) + (if waiting then 0 else 1) else 0
    case Published(_) => 2
    case Freeing(_) => 1
  }

  /** Thread `t` is a rewrite that waits for the readers of a segment, and `u` is one. */
  ghost predicate WaitsFor(threads: seq<Thread>, t: nat, u: nat) {
    && t < |threads| && u < |threads| && threads[t].Upgrading? && threads[t].waiting
    && threads[t].n < |threads[t].region| && Holds(threads[u], threads[t].region[threads[t].n].id, IR)
  }

  /** The step can be taken and brings its thread closer to its end. */
  ghost predicate Advances(s: State, t: nat, a: Action) {
    Enabled(s, t, a) && Rank(NextThread(s, t, a)) < Rank(s.threads[t])
  }

  /** An id above all of a set. */
  lemma {:induction false} Above(ids: set<Id>) returns (top: Id)
    ensures forall id | id in ids :: id < top
  {
    if ids == {} {
      top := 0;
    } else {
      var id :| id in ids;
      var rest := ids - {id};
      var other := Above(rest);
      top := if other <= id then id + 1 else other;
      forall x | x in ids
        ensures x < top
      {
        assert x == id || x in rest;
      }
    }
  }

  /** The segments that a rewrite has locked have contents. */
  lemma HasContents(s: State, t: nat, e: Entry)
    requires Inv(s) && t < |s.threads| && s.threads[t].Rewriting? && e in s.threads[t].region
    ensures e.id in s.contents
  {
    var th := s.threads[t];
    assert EntriesOk(s.index, s.owner, t, th) by {
      assert ThreadOk(s, t, th);
    }
    assert RefersTo(th, e);
    assert SegmentOk(s, e);
  }

  lemma ReadCanGo(s: State, t: nat)
    requires t < |s.threads| && s.threads[t].Rewriting? && s.threads[t].n < |s.threads[t].region|
    requires s.threads[t].region[s.threads[t].n].id in s.contents
    ensures Advances(s, t, ReadSegment)
  {
  }

  /** A rewrite that has read its region has the record at its lower bound. */
  lemma HasLowest(s: State, t: nat)
    requires Inv(s) && t < |s.threads| && s.threads[t].Rewriting? && s.threads[t].n == |s.threads[t].region|
    ensures var th := s.threads[t];
            && Chain(th.region) && Lo(th.region) < Hi(th.region) && Lo(th.region) in Merged(th)
            && forall k | k in Merged(th) :: Lo(th.region) <= k
  {
    var th := s.threads[t];
    assert ThreadOk(s, t, th) && RefersTo(th, th.region[0]);
    ChainBounds(th.region, 0);
    assert Lo(th.region) in s.db;
  }

  lemma BuildOne(s: State, t: nat, e: Entry)
    requires t < |s.threads| && s.threads[t].Rewriting? && s.threads[t].n == |s.threads[t].region| > 0
    requires e.lower == Lo(s.threads[t].region) < e.upper == Hi(s.threads[t].region) && e.id !in s.owner
    requires e.lower in Merged(s.threads[t]) && forall k | k in Merged(s.threads[t]) :: e.lower <= k
    ensures Advances(s, t, Build([e]))
  {
  }

  /** One new segment for the whole region can always be written. */
  lemma BuildCanGo(s: State, t: nat) returns (a: Action)
    requires Inv(s) && t < |s.threads| && s.threads[t].Rewriting? && s.threads[t].n == |s.threads[t].region|
    ensures Advances(s, t, a)
  {
    var th := s.threads[t];
    HasLowest(s, t);
    var id := Above(s.owner.Keys);
    var e := Entry(Lo(th.region), Hi(th.region), id);
    BuildOne(s, t, e);
    a := Build([e]);
  }

  lemma ReaderCanGo(s: State, u: nat, id: Id) returns (a: Action)
    requires u < |s.threads| && Holds(s.threads[u], id, IR)
    ensures Advances(s, u, a)
  {
    a := if s.threads[u].Reading? then Unlock else UnlockPrevious;
  }

  lemma UpgradeCanGo(s: State, t: nat) returns (a: Action)
    requires t < |s.threads| && s.threads[t].Upgrading? && LocalOk(s.threads[t])
    requires s.threads[t].waiting ==> Drained(s, s.threads[t].region[s.threads[t].n].id)
    ensures Advances(s, t, a)
  {
    var th := s.threads[t];
    a := if th.n == |th.region| then Publish else if th.waiting then FinishUpgrade else BeginUpgrade;
  }

  lemma RewriteCanGo(s: State, t: nat) returns (a: Action)
    requires Inv(s) && t < |s.threads| && s.threads[t].Rewriting?
    ensures Advances(s, t, a)
  {
    assert ThreadOk(s, t, s.threads[t]);
    if s.threads[t].n < |s.threads[t].region| {
      HasContents(s, t, s.threads[t].region[s.threads[t].n]);
      ReadCanGo(s, t);
      a := ReadSegment;
    } else {
      a := BuildCanGo(s, t);
    }
  }

  lemma SimpleCanGo(s: State, t: nat) returns (a: Action)
    requires t < |s.threads| && !s.threads[t].Idle? && !s.threads[t].Rewriting? && !s.threads[t].Upgrading?
    ensures Advances(s, t, a)
  {
    match s.threads[t]
    case Reading(_, _) => a := Unlock;
    case Writing(_) => a := Unlock;
    case Coupling(_, _, _) => a := UnlockPrevious;
    case Locking(_, _, _) => a := Abandon;
    case Published(_) => a := ReleaseOld;
    case Freeing(_) => a := FreeOld;
  }

  /** Who is not done can go on, or waits for a reader who can. */
  lemma NeverStuck(s: State, t: nat) returns (u: nat, a: Action)
    requires Inv(s) && t < |s.threads| && !s.threads[t].Idle?
    ensures Advances(s, u, a)
    ensures u == t || WaitsFor(s.threads, t, u)
  {
    var th := s.threads[t];
    u := t;
    if th.Rewriting? {
      a := RewriteCanGo(s, t);
    } else if th.Upgrading? {
      assert ThreadOk(s, t, th);
      if th.waiting && !Drained(s, th.region[th.n].id) {
        u :| 0 <= u < |s.threads| && Holds(s.threads[u], th.region[th.n].id, IR);
        a := ReaderCanGo(s, u, th.region[th.n].id);
      } else {
        a := UpgradeCanGo(s, t);
      }
    } else {
      a := SimpleCanGo(s, t);
    }
  }

  // ------------------------------------------------------------ all threads

  ghost function TotalRank(threads: seq<Thread>): nat {
    if |threads| == 0 then 0 else TotalRank(threads[..|threads| - 1]) + Rank(threads[|threads| - 1])
  }

  lemma {:induction false} TotalDrops(threads: seq<Thread>, t: nat, th: Thread)
    requires t < |threads| && Rank(th) < Rank(threads[t])
    ensures TotalRank(threads[t := th]) < TotalRank(threads)
    decreases |threads|
  {
    var n := |threads| - 1;
    if t < n {
      assert threads[t := th][..n] == threads[..n][t := th];
      TotalDrops(threads[..n], t, th);
    } else {
      assert threads[t := th][..n] == threads[..n];
    }
  }

  ghost predicate AllIdle(s: State) {
    forall t | 0 <= t < |s.threads| :: s.threads[t].Idle?
  }

  /** From every reachable state there is a run after which all threads are done. */
  lemma {:induction false} CanFinish(s: State) returns (moves: seq<Move>)
    requires Inv(s)
    ensures IsRun(s, moves) && AllIdle(After(s, moves))
    decreases TotalRank(s.threads)
  {
    if AllIdle(s) {
      moves := [];
    } else {
      var t :| 0 <= t < |s.threads| && !s.threads[t].Idle?;
      var u, a := NeverStuck(s, t);
      StepInv(s, u, a);
      TotalDrops(s.threads, u, NextThread(s, u, a));
      var rest := CanFinish(Next(s, u, a));
      moves := [Move(u, a)] + rest;
      assert moves[1..] == rest;
    }
  }

  /** Whatever has happened, all threads can come to an end. */
  lemma {:induction false} NoDeadlock(s: State) returns (moves: seq<Move>)
    requires Reachable(s)
    ensures IsRun(s, moves) && AllIdle(After(s, moves))
  {
    ReachableInv(s);
    moves := CanFinish(s);
  }

  // ------------------------------------------------------------ one thread alone

  ghost predicate OthersIdle(s: State, t: nat) {
    t < |s.threads| && forall u | 0 <= u < |s.threads| && u != t :: s.threads[u].Idle?
  }

  /** When nobody else is at work, every key can be read and written, and its segment rewritten. */
  lemma {:induction false} CanStart(s: State, t: nat, k: Key, extra: Records) returns (e: Entry)
    requires Inv(s) && OthersIdle(s, t) && s.threads[t].Idle? && k < MAX_KEY
    ensures e.Contains(k) && Enabled(s, t, LockRead(e)) && Enabled(s, t, LockWrite(e)) && Enabled(s, t, Snapshot([e]))
    ensures Within(extra, e.lower, e.upper) ==> Enabled(s, t, LockSingle(e, extra))
  {
    e := EntryFor(s.index, k);
  }

  /** The region is locked up to `n`, and was in the index when it was seen. */
  ghost predicate LockedUpTo(s: State, t: nat, region: seq<Entry>, n: nat) {
    && OthersIdle(s, t) && Chain(region) && AllIn(s.index, region) && Distinct(region) && n <= |region|
    && s.threads[t] == Locking(region, n, |s.built|)
  }

  lemma NotYetIn(region: seq<Entry>, n: nat)
    requires Distinct(region) && n < |region|
    ensures region[n].id !in Ids(region[..n])
  {
  }

  lemma LockNextOne(s: State, t: nat, region: seq<Entry>, n: nat)
    requires LockedUpTo(s, t, region, n) && n < |region|
    ensures Enabled(s, t, LockOne) && LockedUpTo(Next(s, t, LockOne), t, region, n + 1)
  {
    NotYetIn(region, n);
  }

  lemma {:induction false} LockTheRest(s: State, t: nat, region: seq<Entry>, n: nat) returns (moves: seq<Move>)
    requires LockedUpTo(s, t, region, n)
    ensures IsRun(s, moves) && LockedUpTo(After(s, moves), t, region, |region|)
    decreases |region| - n
  {
    if n == |region| {
      moves := [];
    } else {
      LockNextOne(s, t, region, n);
      var rest := LockTheRest(Next(s, t, LockOne), t, region, n + 1);
      moves := [Move(t, LockOne)] + rest;
      assert moves[1..] == rest;
    }
  }

  lemma ValidateCanGo(s: State, t: nat, region: seq<Entry>, extra: Records)
    requires LockedUpTo(s, t, region, |region|) && Within(extra, Lo(region), Hi(region))
    ensures Enabled(s, t, Validate(extra))
  {
    forall i, l | 0 <= i < |region| - 1 && l in s.index
      ensures !(region[i].lower < l < region[i + 1].lower)
    {
      assert Has(s.index, region[i]) && region[i].upper == region[i + 1].lower;
    }
    forall i | 0 <= i < |region|
      ensures region[i].lower in s.index && s.index[region[i].lower] == region[i].id
    {
      assert Has(s.index, region[i]);
    }
  }

  /** When nobody else is at work, every region can be locked and is found as it was seen. */
  lemma {:induction false} CanRewrite(s: State, t: nat, region: seq<Entry>, extra: Records) returns (moves: seq<Move>)
    requires Inv(s) && OthersIdle(s, t) && s.threads[t].Idle? && Chain(region) && AllIn(s.index, region) && Distinct(region)
    requires Within(extra, Lo(region), Hi(region))
    ensures Enabled(s, t, Snapshot(region)) && IsRun(Next(s, t, Snapshot(region)), moves)
    ensures Enabled(After(Next(s, t, Snapshot(region)), moves), t, Validate(extra))
  {
    var s1 := Next(s, t, Snapshot(region));
    moves := LockTheRest(s1, t, region, 0);
    ValidateCanGo(After(s1, moves), t, region, extra);
  }

  /** A segment that only `t` has a lock on can be joined by who may join that. */
  lemma OnlyHolder(s: State, t: nat, id: Id, held: Mode, m: Mode)
    requires OthersIdle(s, t) && Holds(s.threads[t], id, held) && forall k | Holds(s.threads[t], id, k) :: k == held
    ensures CanGrant(s, id, m) <==> Grants(m, held)
  {
  }

  /** What another thread can do with a segment. */
  ghost predicate MayJoin(s: State, u: nat, e: Entry, read: bool, write: bool, rewrite: bool) {
    && (Enabled(s, u, LockRead(e)) <==> read) && (Enabled(s, u, LockWrite(e)) <==> write)
    && (Enabled(s, u, LockSingle(e, map[])) <==> rewrite)
  }

  lemma HeldBy(s: State, t: nat, u: nat, e: Entry, held: Mode)
    requires OthersIdle(s, t) && u < |s.threads| && u != t && Has(s.index, e)
    requires Holds(s.threads[t], e.id, held) && forall k | Holds(s.threads[t], e.id, k) :: k == held
    ensures MayJoin(s, u, e, Grants(IR, held), Grants(IW, held), Grants(O, held))
  {
    OnlyHolder(s, t, e.id, held, IR);
    OnlyHolder(s, t, e.id, held, IW);
    OnlyHolder(s, t, e.id, held, O);
  }

  /** Readers and writers share a segment with each other; rewrites share it with readers. */
  lemma WhoMayJoin(s: State, t: nat, u: nat, e: Entry)
    requires OthersIdle(s, t) && u < |s.threads| && u != t && Has(s.index, e)
    ensures s.threads[t].Reading? && s.threads[t].e == e ==> MayJoin(s, u, e, true, true, true)
    ensures s.threads[t].Writing? && s.threads[t].e == e ==> MayJoin(s, u, e, true, true, false)
    ensures s.threads[t].Rewriting? && e in s.threads[t].region ==> MayJoin(s, u, e, true, false, false)
  {
    if s.threads[t].Reading? && s.threads[t].e == e {
      HeldBy(s, t, u, e, IR);
    } else if s.threads[t].Writing? && s.threads[t].e == e {
      HeldBy(s, t, u, e, IW);
    } else if s.threads[t].Rewriting? && e in s.threads[t].region {
      IdsMember(s.threads[t].region, e);
      HeldBy(s, t, u, e, O);
    }
  }

  lemma Excluded(s: State, t: nat, id: Id, held: Mode, m: Mode)
    requires t < |s.threads| && Holds(s.threads[t], id, held) && !Grants(m, held)
    ensures !CanGrant(s, id, m)
  {
  }

  /** Nobody joins a rewrite that has its region alone. */
  lemma NobodyJoins(s: State, t: nat, u: nat, e: Entry)
    requires t < |s.threads| && Full(s.threads[t]) && e in s.threads[t].region
    ensures MayJoin(s, u, e, false, false, false)
  {
    var th := s.threads[t];
    IdsMember(th.region, e);
    assert th.region[..th.n] == th.region;
    Excluded(s, t, e.id, OX, IR);
    Excluded(s, t, e.id, OX, IW);
    Excluded(s, t, e.id, OX, O);
  }
}
