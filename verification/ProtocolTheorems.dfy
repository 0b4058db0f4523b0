// What holds over whole runs of the segment protocol.
module ProtocolTheorems {
  import opened Bytes
  import opened SegmentProtocol
  import opened ProtocolInvariant
  import opened ProtocolQuiet
  import opened ProtocolWrites
  import opened ProtocolPublish

  // ------------------------------------------------------------ runs

  /** A loaded database that nobody is using yet. */
  ghost predicate Initial(s: State) {
    && IndexOk(s.index) && OwnersOk(s) && DataOk(s)
    && (forall id | id in s.owner :: s.owner[id].Free? || s.owner[id].Indexed?)
    && (forall t | 0 <= t < |s.threads| :: s.threads[t].Idle?)
  }

  /** Which thread takes which step. */
  datatype Move = Move(t: nat, a: Action)

  /** Every step of the run can be taken. */
  ghost predicate IsRun(s: State, moves: seq<Move>)
    decreases |moves|
  {
    |moves| > 0 ==> Enabled(s, moves[0].t, moves[0].a) && IsRun(Next(s, moves[0].t, moves[0].a), moves[1..])
  }

  ghost function After(s: State, moves: seq<Move>): State
    requires IsRun(s, moves)
    decreases |moves|
  {
    if |moves| == 0 then s else After(Next(s, moves[0].t, moves[0].a), moves[1..])
  }

  /** Every step keeps the invariant. */
  lemma {:induction false} StepInv(s: State, t: nat, a: Action)
    requires Inv(s) && Enabled(s, t, a)
    ensures Inv(Next(s, t, a))
  {
    if Quiet(a) {
      QuietStep(s, t, a);
    } else if a.Write? {
      WriteStep(s, t, a.k, a.v);
    } else if a.Build? {
      BuildStep(s, t, a.news);
    } else if a.Invalidate? {
      InvalidateStep(s, t, a.i);
    } else if a.Publish? {
      PublishStep(s, t);
    } else if a.InvalidateRest? {
      InvalidateRestStep(s, t, a.i);
    } else {
      FreeStep(s, t);
    }
  }

  lemma {:induction false} RunInv(s: State, moves: seq<Move>)
    requires Inv(s) && IsRun(s, moves)
    ensures Inv(After(s, moves))
    decreases |moves|
  {
    if |moves| > 0 {
      StepInv(s, moves[0].t, moves[0].a);
      RunInv(Next(s, moves[0].t, moves[0].a), moves[1..]);
    }
  }

  /** The state can come about. */
  ghost predicate Reachable(s: State) {
    exists start, moves :: Leads(start, moves, s)
  }

  ghost predicate Leads(start: State, moves: seq<Move>, s: State) {
    Initial(start) && IsRun(start, moves) && After(start, moves) == s
  }

  lemma {:induction false} ReachableInv(s: State)
    requires Reachable(s)
    ensures Inv(s)
  {
    var start, moves :| Leads(start, moves, s);
    RunInv(start, moves);
  }

  // ------------------------------------------------------------ what locks protect

  /** In every reachable state, a segment that a thread has locked is in the index, with the bounds the thread saw. */
  lemma {:induction false} LockedStaysIndexed(s: State, t: nat, e: Entry)
    requires Reachable(s) && t < |s.threads| && RefersTo(s.threads[t], e)
    ensures Has(s.index, e)
  {
    ReachableInv(s);
  }

  /** In every reachable state, no id is both in the index and free. */
  lemma {:induction false} NeverIndexedAndFree(s: State, l: Key)
    requires Reachable(s) && l in s.index
    ensures s.index[l] !in s.free
  {
    ReachableInv(s);
  }

  /** In every reachable state, who has a segment locked finds in it exactly the current records of its range. */
  lemma {:induction false} ReadersSeeCurrent(s: State, t: nat, e: Entry)
    requires Reachable(s) && t < |s.threads| && RefersTo(s.threads[t], e) && !s.threads[t].Upgrading?
    ensures e.id in s.contents && s.contents[e.id] == Restrict(s.db, e.lower, e.upper)
  {
    ReachableInv(s);
    assert EntriesOk(s.index, s.owner, t, s.threads[t]) by {
      assert ThreadOk(s, t, s.threads[t]);
    }
    assert SegmentOk(s, e);
  }

  /**
   * In every reachable state, the segments that a scan has visited so far, however the index changed meanwhile, tile the
   * keys from where it started to where it is: every key is in exactly one, and the segment it goes on to begins where they end.
   */
  lemma {:induction false} ScansTile(s: State, t: nat, k: Key) returns (i: nat)
    requires Reachable(s) && t < |s.threads| && (s.threads[t].Reading? || s.threads[t].Coupling?)
    ensures Trail(s.threads[t].visited, s.threads[t].e)
    ensures s.threads[t].Coupling? ==> s.threads[t].f.lower == Hi(s.threads[t].visited)
    ensures Lo(s.threads[t].visited) <= k < Hi(s.threads[t].visited) ==>
              && i < |s.threads[t].visited| && s.threads[t].visited[i].Contains(k)
              && forall j | 0 <= j < |s.threads[t].visited| && j != i :: !s.threads[t].visited[j].Contains(k)
  {
    ReachableInv(s);
    assert ThreadOk(s, t, s.threads[t]);
    var visited := s.threads[t].visited;
    i := 0;
    if Lo(visited) <= k < Hi(visited) {
      i := ChainCovers(visited, |visited|, k);
      ContainedOnce(visited, i, k);
    }
  }

  lemma ContainedOnce(es: seq<Entry>, i: nat, k: Key)
    requires Chain(es) && i < |es| && es[i].Contains(k)
    ensures forall j | 0 <= j < |es| && j != i :: !es[j].Contains(k)
  {
    forall j | 0 <= j < |es| && j != i
      ensures !es[j].Contains(k)
    {
      if j < i {
        ChainRises(es, j, i);
      } else {
        ChainRises(es, i, j);
      }
    }
  }

  // ------------------------------------------------------------ upgrades

  lemma DrainingBlocks(s: State, t: nat, x: Id)
    requires t < |s.threads| && Holds(s.threads[t], x, Draining)
    ensures !CanGrant(s, x, IR)
  {
    assert !Grants(IR, Draining);
  }

  /** While an upgrade waits, no thread becomes a reader of the segment. */
  lemma {:induction false} WaitingOnlyDrains(s: State, t: nat, x: Id, u: nat, a: Action, v: nat)
    requires t < |s.threads| && Holds(s.threads[t], x, Draining) && Enabled(s, u, a) && v < |s.threads|
    requires Holds(Next(s, u, a).threads[v], x, IR)
    ensures Holds(s.threads[v], x, IR)
  {
    DrainingBlocks(s, t, x);
    assert Next(s, u, a).threads == s.threads[u := NextThread(s, u, a)];
  }

  /** Once upgraded, until it releases the lock, the rewrite is the only one with a lock on the segment. */
  lemma {:induction false} UpgradedIsAlone(s: State, t: nat, u: nat, id: Id, m: Mode)
    requires Reachable(s) && t < |s.threads| && u < |s.threads| && t != u && Holds(s.threads[t], id, OX)
    ensures !Holds(s.threads[u], id, m)
  {
    ReachableInv(s);
    ExclusiveExcludes(m);
  }

  // ------------------------------------------------------------ no write is lost

  /** The additional records that each thread was last given. */
  type Given = map<nat, Records>

  function Give(given: Given, m: Move): Given {
    match m.a
    case Validate(extra) => given[m.t := extra]
    case LockSingle(_, extra) => given[m.t := extra]
    case _ => given
  }

  /** What a move writes: its record, or on publication the records that the thread was given. */
  function WriteOf(given: Given, m: Move): Records {
    match m.a
    case Write(k, v) => map[k := v]
    case Publish => if m.t in given then given[m.t] else map[]
    case _ => map[]
  }

  /** All the writes of a run, in order, as its moves alone tell. */
  function Writes(given: Given, moves: seq<Move>): Records
    decreases |moves|
  {
    if |moves| == 0 then map[] else WriteOf(given, moves[0]) + Writes(Give(given, moves[0]), moves[1..])
  }

  /** What the threads have been given after a run. */
  function GivenAfter(given: Given, moves: seq<Move>): Given
    decreases |moves|
  {
    if |moves| == 0 then given else GivenAfter(Give(given, moves[0]), moves[1..])
  }

  /** A rewrite still has the records that it was given. */
  ghost predicate HasGiven(th: Thread, given: Given, t: nat) {
    th.Rewriting? || th.Upgrading? ==> t in given && th.extra == given[t]
  }

  ghost predicate Remembers(s: State, given: Given) {
    forall t | 0 <= t < |s.threads| :: HasGiven(s.threads[t], given, t)
  }

  lemma StepDb(s: State, given: Given, m: Move)
    requires Enabled(s, m.t, m.a) && HasGiven(s.threads[m.t], given, m.t)
    ensures Next(s, m.t, m.a).db == s.db + WriteOf(given, m)
  {
    DbAfter(s, m.t, m.a);
    if m.a.Write? {
      PutIsOverlay(s.db, m.a.k, m.a.v);
    } else if !m.a.Publish? {
      OverlayNothing(s.db);
    }
  }

  lemma DbAfter(s: State, t: nat, a: Action)
    requires Enabled(s, t, a)
    ensures a.Write? ==> Next(s, t, a).db == Put(s.db, a.k, a.v)
    ensures a.Publish? ==> s.threads[t].Upgrading? && Next(s, t, a).db == s.db + s.threads[t].extra
    ensures !a.Write? && !a.Publish? ==> Next(s, t, a).db == s.db
  {
  }

  lemma PutIsOverlay(db: Records, k: Key, v: Bytestring)
    ensures Put(db, k, v) == db + map[k := v]
  {
  }

  lemma OverlayNothing(db: Records)
    ensures db + map[] == db
  {
  }

  lemma StepGiven(s: State, given: Given, m: Move)
    requires Enabled(s, m.t, m.a) && HasGiven(s.threads[m.t], given, m.t)
    ensures HasGiven(NextThread(s, m.t, m.a), Give(given, m), m.t)
  {
  }

  lemma StepWrites(s: State, given: Given, m: Move)
    requires Enabled(s, m.t, m.a) && Remembers(s, given)
    ensures Next(s, m.t, m.a).db == s.db + WriteOf(given, m) && Remembers(Next(s, m.t, m.a), Give(given, m))
  {
    var s', given' := Next(s, m.t, m.a), Give(given, m);
    assert HasGiven(s.threads[m.t], given, m.t);
    StepDb(s, given, m);
    StepGiven(s, given, m);
    OthersGiven(s.threads, NextThread(s, m.t, m.a), given, m);
    assert s'.threads == s.threads[m.t := NextThread(s, m.t, m.a)];
  }

  lemma OthersGiven(threads: seq<Thread>, th: Thread, given: Given, m: Move)
    requires m.t < |threads| && (forall t | 0 <= t < |threads| :: HasGiven(threads[t], given, t))
    requires HasGiven(th, Give(given, m), m.t)
    ensures var threads' := threads[m.t := th]; forall t | 0 <= t < |threads'| :: HasGiven(threads'[t], Give(given, m), t)
  {
    var threads' := threads[m.t := th];
    forall t | 0 <= t < |threads'|
      ensures HasGiven(threads'[t], Give(given, m), t)
    {
      assert HasGiven(threads[t], given, t);
    }
  }

  lemma OverlayTwice(a: Records, b: Records, c: Records)
    ensures (a + b) + c == a + (b + c)
  {
  }

  /** Over any run the database becomes what the moves write. */
  lemma {:induction false} RunWrites(s: State, given: Given, moves: seq<Move>)
    requires IsRun(s, moves) && Remembers(s, given)
    ensures After(s, moves).db == s.db + Writes(given, moves) && Remembers(After(s, moves), GivenAfter(given, moves))
    decreases |moves|
  {
    if |moves| > 0 {
      var m, rest := moves[0], moves[1..];
      StepWrites(s, given, m);
      RunWrites(Next(s, m.t, m.a), Give(given, m), rest);
      OverlayTwice(s.db, WriteOf(given, m), Writes(Give(given, m), rest));
    }
  }

  /** What a run from an unused database leads to. */
  lemma {:induction false} RunLeadsTo(s: State, moves: seq<Move>, s': State, given: Given)
    requires Leads(s, moves, s') && given == GivenAfter(map[], moves)
    ensures Inv(s') && s'.db == s.db + Writes(map[], moves) && Remembers(s', given)
  {
    assert Reachable(s');
    ReachableInv(s');
    RunWrites(s, map[], moves);
  }

  lemma {:induction false} CurrentAt(s: State, e: Entry, k: Key)
    requires Inv(s) && Has(s.index, e) && CanGrant(s, e.id, IR) && e.Contains(k)
    ensures e.id in s.contents && (k in s.contents[e.id] <==> k in s.db)
    ensures k in s.db ==> s.contents[e.id][k] == s.db[k]
  {
    GrantedIndexed(s, e, IR);
    assert SegmentOk(s, e);
  }

  /** Over any run, no rewrite loses a write: each segment holds the last value that was written to it or to those it came from. */
  lemma {:induction false} RewritesLoseNothing(s: State, moves: seq<Move>, s': State, expected: Records, k: Key, e: Entry)
    requires Leads(s, moves, s') && expected == s.db + Writes(map[], moves)
    requires e.Contains(k) && Has(s'.index, e) && CanGrant(s', e.id, IR)
    ensures e.id in s'.contents && (k in s'.contents[e.id] <==> k in expected)
    ensures k in expected ==> s'.contents[e.id][k] == expected[k]
  {
    RunLeadsTo(s, moves, s', GivenAfter(map[], moves));
    CurrentAt(s', e, k);
  }

  /** The new segment of a rewrite for a key holds what the region will read once it is published. */
  ghost predicate HoldsKey(contents: map<Id, Records>, all: Records, e: Entry, k: Key) {
    && e.Contains(k) && e.id in contents
    && (k in contents[e.id] <==> k in all) && (k in all ==> contents[e.id][k] == all[k])
  }

  lemma CopyHasKey(s: State, th: Thread, i: nat, k: Key)
    requires th.Upgrading? && i < |th.news| && LocalOk(th) && CopiesOk(s.contents, s.db, th) && th.news[i].Contains(k)
    ensures HoldsKey(s.contents, s.db + th.extra, th.news[i], k)
  {
    assert NewOk(s.contents, Restrict(s.db, Lo(th.region), Hi(th.region)) + th.extra, th.news[i]);
    ChainBounds(th.news, i);
  }

  lemma {:induction false} UpgradeHoldsAll(s: State, t: nat, th: Thread, k: Key) returns (i: nat)
    requires Inv(s) && t < |s.threads| && th == s.threads[t] && th.Upgrading?
    requires |th.region| > 0 && Lo(th.region) <= k < Hi(th.region)
    ensures i < |th.news| && HoldsKey(s.contents, s.db + th.extra, th.news[i], k)
  {
    assert ThreadOk(s, t, th);
    i := ChainCovers(th.news, |th.news|, k);
    CopyHasKey(s, th, i, k);
  }

  /**
   * From its first exclusive lock to its publication, a rewrite has every record of its region as the moves so far wrote
   * it, under the additional records that it was given.
   */
  lemma {:induction false} RewriteHoldsAll(s: State, moves: seq<Move>, s': State, given: Given, t: nat, th: Thread, k: Key) returns (i: nat)
    requires Leads(s, moves, s') && given == GivenAfter(map[], moves) && t < |s'.threads| && th == s'.threads[t] && th.Upgrading?
    requires |th.region| > 0 && Lo(th.region) <= k < Hi(th.region)
    ensures t in given && i < |th.news|
    ensures HoldsKey(s'.contents, s.db + Writes(map[], moves) + given[t], th.news[i], k)
  {
    RunLeadsTo(s, moves, s', given);
    assert HasGiven(th, given, t);
    i := UpgradeHoldsAll(s', t, th, k);
  }

  // ------------------------------------------------------------ validation

  /** An accepted region is in the index as it was seen exactly if its last upper bound is still right. */
  lemma ValidationExact(index: Index, region: seq<Entry>)
    requires IndexOk(index) && Chain(region) && Accepts(index, region)
    ensures AllIn(index, region) <==> Has(index, region[|region| - 1])
  {
    if Has(index, region[|region| - 1]) {
      AcceptedIn(index, region);
    }
  }

  /** In every reachable state, a region that is accepted is what was seen if no rewrite has used one of its ids again since. */
  lemma {:induction false} ValidatedAsSeen(s: State, t: nat)
    requires Reachable(s) && t < |s.threads| && s.threads[t].Locking? && Accepts(s.index, s.threads[t].region)
    requires NotRebuilt(s.built, s.threads[t].since, Ids(s.threads[t].region))
    ensures AllIn(s.index, s.threads[t].region)
  {
    ReachableInv(s);
    assert LocalOk(s.threads[t]) by {
      assert ThreadOk(s, t, s.threads[t]);
    }
  }
}
