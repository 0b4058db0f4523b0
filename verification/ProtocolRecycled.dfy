// A run in which an id comes back under the same lower bound with a shorter range, and validation does not notice.
module ProtocolRecycled {
  import opened Bytes
  import opened SegmentProtocol
  import opened ProtocolInvariant
  import opened ProtocolTheorems

  // ------------------------------------------------------------ composing runs

  ghost predicate Reaches(s: State, s': State) {
    exists moves :: IsRun(s, moves) && After(s, moves) == s'
  }

  lemma {:induction false} RunThen(s: State, moves: seq<Move>, t: nat, a: Action)
    requires IsRun(s, moves) && Enabled(After(s, moves), t, a)
    ensures IsRun(s, moves + [Move(t, a)]) && After(s, moves + [Move(t, a)]) == Next(After(s, moves), t, a)
    decreases |moves|
  {
    var all := moves + [Move(t, a)];
    if |moves| == 0 {
      assert all[1..] == [];
    } else {
      RunThen(Next(s, moves[0].t, moves[0].a), moves[1..], t, a);
      assert all[1..] == moves[1..] + [Move(t, a)];
    }
  }

  lemma ReachesSelf(s: State)
    ensures Reaches(s, s)
  {
    assert IsRun(s, []) && After(s, []) == s;
  }

  lemma ReachesNext(s: State, s': State, t: nat, a: Action)
    requires Reaches(s, s') && Enabled(s', t, a)
    ensures Reaches(s, Next(s', t, a))
  {
    var moves :| IsRun(s, moves) && After(s, moves) == s';
    RunThen(s, moves, t, a);
  }

  // ------------------------------------------------------------ rewriting one segment

  /** A thread can rewrite the segment into the new ones. */
  ghost predicate CanRewrite(s: State, t: nat, e: Entry, news: seq<Entry>) {
    && t < |s.threads| && s.threads[t].Idle? && Has(s.index, e) && e.id in s.contents
    && (forall u, m | 0 <= u < |s.threads| :: !Holds(s.threads[u], e.id, m))
    && Chain(news) && Hi(news) == e.upper && Distinct(news)
    && (forall i | 0 <= i < |news| :: news[i].lower in s.contents[e.id])
    && (forall k | k in s.contents[e.id] :: Lo(news) <= k)
    && (forall i | 0 <= i < |news| :: news[i].id in s.owner ==> s.owner[news[i].id].Free?)
  }

  /** The state when the new segments are written. */
  ghost function Written(s: State, t: nat, e: Entry, news: seq<Entry>): State
    requires t < |s.threads| && e.id in s.contents
  {
    s.(contents := WriteSegments(s.contents, news, s.contents[e.id]),
       free := s.free - Ids(news),
       owner := SetOwner(s.owner, Ids(news), Private(t)),
       built := s.built + [Ids(news)],
       threads := s.threads[t := Upgrading([e], news, map[], 0, false)])
  }

  /** The state when they are published. */
  ghost function Exchanged(s: State, t: nat, e: Entry, news: seq<Entry>): State
    requires t < |s.threads| && e.id in s.contents
  {
    var w := Written(s, t, e, news);
    w.(index := Replace(s.index, [e], news),
       owner := SetOwner(SetOwner(w.owner, Ids([e]), Private(t)), Ids(news), Indexed),
       threads := s.threads[t := Published([e])])
  }

  lemma LockOnly(start: State, s: State, t: nat, e: Entry)
    requires Reaches(start, s) && t < |s.threads| && s.threads[t].Idle? && Has(s.index, e) && CanGrant(s, e.id, O)
    ensures Reaches(start, s.(threads := s.threads[t := Rewriting([e], 0, map[], map[])]))
  {
    ReachesNext(start, s, t, LockSingle(e, map[]));
  }

  lemma ReadOnly(start: State, s: State, t: nat, e: Entry)
    requires Reaches(start, s) && t < |s.threads| && s.threads[t] == Rewriting([e], 0, map[], map[]) && e.id in s.contents
    ensures Reaches(start, s.(threads := s.threads[t := Rewriting([e], 1, s.contents[e.id], map[])]))
  {
    assert map[] + s.contents[e.id] == s.contents[e.id];
    ReachesNext(start, s, t, ReadSegment);
  }

  lemma BuildOnly(start: State, s: State, t: nat, e: Entry, rs: Records, news: seq<Entry>)
    requires Reaches(start, s) && t < |s.threads| && s.threads[t] == Rewriting([e], 1, rs, map[])
    requires Chain(news) && Hi(news) == e.upper && Distinct(news)
    requires (forall i | 0 <= i < |news| :: news[i].lower in rs) && (forall k | k in rs :: Lo(news) <= k)
    requires forall i | 0 <= i < |news| :: news[i].id in s.owner ==> s.owner[news[i].id].Free?
    ensures Reaches(start,
                    s.(contents := WriteSegments(s.contents, news, rs), free := s.free - Ids(news),
                       owner := SetOwner(s.owner, Ids(news), Private(t)), built := s.built + [Ids(news)],
                       threads := s.threads[t := Upgrading([e], news, map[], 0, false)]))
  {
    assert Merged(s.threads[t]) == rs;
    ReachesNext(start, s, t, Build(news));
  }

  lemma {:induction false} WriteRun(start: State, s: State, t: nat, e: Entry, news: seq<Entry>)
    requires Reaches(start, s) && CanRewrite(s, t, e, news)
    ensures Reaches(start, Written(s, t, e, news))
  {
    var rs := s.contents[e.id];
    LockOnly(start, s, t, e);
    var s1 := s.(threads := s.threads[t := Rewriting([e], 0, map[], map[])]);
    ReadOnly(start, s1, t, e);
    var s2 := s1.(threads := s1.threads[t := Rewriting([e], 1, rs, map[])]);
    BuildOnly(start, s2, t, e, rs, news);
    assert s2.threads[t := Upgrading([e], news, map[], 0, false)] == Written(s, t, e, news).threads;
  }

  lemma BeginOnly(start: State, s: State, t: nat, e: Entry, news: seq<Entry>)
    requires Reaches(start, s) && t < |s.threads| && s.threads[t] == Upgrading([e], news, map[], 0, false)
    ensures Reaches(start, s.(threads := s.threads[t := Upgrading([e], news, map[], 0, true)]))
  {
    ReachesNext(start, s, t, BeginUpgrade);
  }

  lemma FinishOnly(start: State, s: State, t: nat, e: Entry, news: seq<Entry>)
    requires Reaches(start, s) && t < |s.threads| && s.threads[t] == Upgrading([e], news, map[], 0, true) && Drained(s, e.id)
    ensures Reaches(start, s.(threads := s.threads[t := Upgrading([e], news, map[], 1, false)]))
  {
    ReachesNext(start, s, t, FinishUpgrade);
  }

  lemma PublishOnly(start: State, s: State, t: nat, e: Entry, news: seq<Entry>)
    requires Reaches(start, s) && t < |s.threads| && s.threads[t] == Upgrading([e], news, map[], 1, false)
    ensures Reaches(start,
                    s.(index := Replace(s.index, [e], news), threads := s.threads[t := Published([e])],
                       owner := SetOwner(SetOwner(s.owner, Ids([e]), Private(t)), Ids(news), Indexed)))
  {
    assert s.db + map[] == s.db;
    ReachesNext(start, s, t, Publish);
  }

  lemma NoReaders(s: State, s': State, t: nat, e: Entry, th: Thread)
    requires t < |s.threads| && s'.threads == s.threads[t := th] && th.Upgrading?
    requires forall u, m | 0 <= u < |s.threads| :: !Holds(s.threads[u], e.id, m)
    ensures Drained(s', e.id)
  {
    forall u | 0 <= u < |s'.threads|
      ensures !Holds(s'.threads[u], e.id, IR)
    {
      assert u != t ==> !Holds(s.threads[u], e.id, IR);
    }
  }

  lemma UpgradeSteps(start: State, s: State, w: State, t: nat, e: Entry, news: seq<Entry>)
    requires Reaches(start, w) && t < |s.threads| && w.threads == s.threads[t := Upgrading([e], news, map[], 0, false)]
    requires forall u, m | 0 <= u < |s.threads| :: !Holds(s.threads[u], e.id, m)
    ensures Reaches(start, w.(threads := s.threads[t := Upgrading([e], news, map[], 1, false)]))
  {
    BeginOnly(start, w, t, e, news);
    var w1 := w.(threads := s.threads[t := Upgrading([e], news, map[], 0, true)]);
    assert w.threads[t := w1.threads[t]] == w1.threads;
    NoReaders(s, w1, t, e, w1.threads[t]);
    FinishOnly(start, w1, t, e, news);
    assert w1.threads[t := Upgrading([e], news, map[], 1, false)] == s.threads[t := Upgrading([e], news, map[], 1, false)];
  }

  lemma {:induction false} ExchangeRun(start: State, s: State, t: nat, e: Entry, news: seq<Entry>)
    requires CanRewrite(s, t, e, news) && Reaches(start, Written(s, t, e, news))
    ensures Reaches(start, Exchanged(s, t, e, news))
  {
    var w := Written(s, t, e, news);
    UpgradeSteps(start, s, w, t, e, news);
    var w2 := w.(threads := s.threads[t := Upgrading([e], news, map[], 1, false)]);
    PublishOnly(start, w2, t, e, news);
    assert w2.threads[t := Published([e])] == Exchanged(s, t, e, news).threads;
  }

  /** The state when the old segment's id is free again. */
  ghost function Freed(s: State, t: nat, e: Entry): State
    requires t < |s.threads|
  {
    s.(free := s.free + Ids([e]), owner := SetOwner(s.owner, Ids([e]), Free), threads := s.threads[t := Idle])
  }

  lemma FreeRun(start: State, s: State, t: nat, e: Entry)
    requires Reaches(start, s) && t < |s.threads| && s.threads[t] == Published([e])
    ensures Reaches(start, Freed(s, t, e))
  {
    var s1 := s.(threads := s.threads[t := Freeing([e])]);
    ReachesNext(start, s, t, ReleaseOld);
    assert Next(s, t, ReleaseOld) == s1;
    ReachesNext(start, s1, t, FreeOld);
    assert s1.threads[t := Idle] == s.threads[t := Idle];
  }

  lemma RewriteRun(start: State, s: State, t: nat, e: Entry, news: seq<Entry>)
    requires Reaches(start, s) && CanRewrite(s, t, e, news)
    ensures Reaches(start, Exchanged(s, t, e, news))
  {
    WriteRun(start, s, t, e, news);
    ExchangeRun(start, s, t, e, news);
  }

  lemma ReplaceOne(index: Index, e: Entry, f: Entry)
    ensures Replace(index, [e], [f]) == (index - {e.lower})[f.lower := f.id]
  {
    assert [e][0] == e && Lowers([e]) == {e.lower};
    assert [f][..0] == [] && [f][0] == f;
    var rest := index - Lowers([e]);
    assert InsertAll(rest, [f][..0]) == rest;
    assert InsertAll(rest, [f]) == InsertAll(rest, [f][..0])[f.lower := f.id];
  }

  lemma ReplaceTwo(index: Index, e: Entry, f: Entry, g: Entry)
    ensures Replace(index, [e], [f, g]) == (index - {e.lower})[f.lower := f.id][g.lower := g.id]
  {
    ReplaceOne(index, e, f);
    assert [f, g][..1] == [f] && [f, g][1] == g;
    assert Replace(index, [e], [f, g]) == InsertAll(index - Lowers([e]), [f, g]);
  }

  lemma IdsAre(a: Entry, b: Entry)
    ensures Ids([a]) == {a.id} && Ids([a, b]) == {a.id, b.id}
  {
    assert [a][0] == a && [a, b][0] == a && [a, b][1] == b;
  }

  // ------------------------------------------------------------ the run

  const Seen := Entry(10, 20, 5)
  const Middle := Entry(10, 20, 6)
  const Shorter := Entry(10, 15, 5)
  const Rest := Entry(15, 20, 7)

  ghost function Two(): Records {
    map[10 := [], 15 := []]
  }

  /** Three segments, two threads. */
  ghost function Start(): State {
    State(map[0 := 1, 10 := 5, 20 := 8], {},
          map[1 := map[0 := []], 5 := Two(), 8 := map[20 := []]],
          map[0 := [], 10 := [], 15 := [], 20 := []],
          map[1 := Indexed, 5 := Indexed, 8 := Indexed],
          [Idle, Idle], [])
  }

  lemma EntryAtStart(s: State, e: Entry)
    requires s.index == map[0 := 1, 10 := 5, 20 := 8] && Has(s.index, e)
    ensures e == Entry(0, 10, 1) || e == Seen || e == Entry(20, MAX_KEY, 8)
  {
    assert 10 in s.index && 20 in s.index;
  }

  lemma RestrictAtStart(db: Records)
    requires db == map[0 := [], 10 := [], 15 := [], 20 := []]
    ensures Restrict(db, 0, 10) == map[0 := []] && Restrict(db, 10, 20) == Two() && Restrict(db, 20, MAX_KEY) == map[20 := []]
  {
  }

  lemma {:induction false} DataAtStart(s: State)
    requires s == Start()
    ensures DataOk(s)
  {
    RestrictAtStart(s.db);
    forall e | Has(s.index, e)
      ensures SegmentOk(s, e)
    {
      EntryAtStart(s, e);
    }
  }

  lemma {:induction false} StartIsInitial()
    ensures Initial(Start())
  {
    var s := Start();
    DataAtStart(s);
    IndexAtStart(s.index);
    OwnersAtStart(s);
  }

  lemma IndexAtStart(index: Index)
    requires index == map[0 := 1, 10 := 5, 20 := 8]
    ensures IndexOk(index)
  {
  }

  lemma OwnersAtStart(s: State)
    requires s == Start()
    ensures OwnersOk(s)
  {
  }

  /** The first thread has seen a segment and has no lock yet; the second is idle. */
  ghost predicate Watching(threads: seq<Thread>) {
    threads == [Locking([Seen], 0, 0), Idle]
  }

  lemma WatchingHoldsNothing(threads: seq<Thread>, id: Id, m: Mode, u: nat)
    requires Watching(threads) && u < 2
    ensures !Holds(threads[u], id, m)
  {
    assert Ids([Seen][..0]) == {};
  }

  lemma LookedRun() returns (s: State)
    ensures Reaches(Start(), s) && s == Start().(threads := s.threads) && Watching(s.threads)
  {
    var s0 := Start();
    ReachesSelf(s0);
    assert Has(s0.index, [Seen][0]);
    ReachesNext(s0, s0, 0, Snapshot([Seen]));
    s := s0.(threads := [Locking([Seen], 0, 0), Idle]);
    assert s0.threads[0 := Locking([Seen], 0, 0)] == s.threads;
  }

  /** The second thread can rewrite a segment from 10 to 20 into one or two. */
  lemma MayRewrite(s: State, e: Entry, news: seq<Entry>)
    requires Watching(s.threads) && Has(s.index, e) && e.upper == 20 && e.id in s.contents && s.contents[e.id] == Two()
    requires news == [Middle] || news == [Shorter, Rest]
    requires forall i | 0 <= i < |news| :: news[i].id in s.owner ==> s.owner[news[i].id].Free?
    ensures CanRewrite(s, 1, e, news)
  {
    forall u, m | 0 <= u < |s.threads|
      ensures !Holds(s.threads[u], e.id, m)
    {
      WatchingHoldsNothing(s.threads, e.id, m, u);
    }
  }

  lemma {:induction false} MovedFacts(l: State, s: State)
    requires l == Start().(threads := l.threads) && Watching(l.threads)
    requires s == Freed(Exchanged(l, 1, Seen, [Middle]), 1, Seen)
    ensures s.index == map[0 := 1, 10 := 6, 20 := 8] && Watching(s.threads)
    ensures 6 in s.contents && s.contents[6] == Two() && 5 in s.owner && s.owner[5].Free? && 7 !in s.owner
  {
    MovedIndex(l.index);
    WrittenMiddle(l.contents);
    MovedOwners(l.owner);
  }

  lemma MovedIndex(index: Index)
    requires index == map[0 := 1, 10 := 5, 20 := 8]
    ensures Replace(index, [Seen], [Middle]) == map[0 := 1, 10 := 6, 20 := 8]
  {
    ReplaceOne(index, Seen, Middle);
  }

  lemma WrittenMiddle(contents: map<Id, Records>)
    ensures var c := WriteSegments(contents, [Middle], Two()); 6 in c && c[6] == Two()
  {
    assert [Middle][..0] == [];
    assert Restrict(Two(), 10, 20) == Two();
  }

  lemma MovedOwners(owner: map<Id, Owner>)
    requires owner == map[1 := Indexed, 5 := Indexed, 8 := Indexed]
    ensures var o := SetOwner(SetOwner(SetOwner(SetOwner(owner, Ids([Middle]), Private(1)), Ids([Seen]), Private(1)), Ids([Middle]), Indexed), Ids([Seen]), Free);
            5 in o && o[5].Free? && 7 !in o
  {
    IdsAre(Seen, Seen);
    IdsAre(Middle, Middle);
  }

  /** The second thread has rewritten the segment under another id, and the first id is free. */
  lemma {:induction false} MovedRun() returns (s: State)
    ensures Reaches(Start(), s) && s.index == map[0 := 1, 10 := 6, 20 := 8] && Watching(s.threads)
    ensures 6 in s.contents && s.contents[6] == Two() && 5 in s.owner && s.owner[5].Free? && 7 !in s.owner
  {
    var l := LookedRun();
    MayRewrite(l, Seen, [Middle]);
    RewriteRun(Start(), l, 1, Seen, [Middle]);
    FreeRun(Start(), Exchanged(l, 1, Seen, [Middle]), 1, Seen);
    s := Freed(Exchanged(l, 1, Seen, [Middle]), 1, Seen);
    MovedFacts(l, s);
  }

  /** It has rewritten it again, into two segments, of which the first has the old id and the old lower bound. */
  lemma AgainRun() returns (s: State)
    ensures Reaches(Start(), s) && s.index == map[0 := 1, 10 := 5, 15 := 7, 20 := 8]
    ensures s.threads == [Locking([Seen], 0, 0), Published([Middle])]
  {
    var m := MovedRun();
    HasMiddle(m.index);
    MayRewrite(m, Middle, [Shorter, Rest]);
    RewriteRun(Start(), m, 1, Middle, [Shorter, Rest]);
    s := Exchanged(m, 1, Middle, [Shorter, Rest]);
    AgainFacts(m, s);
  }

  lemma HasMiddle(index: Index)
    requires index == map[0 := 1, 10 := 6, 20 := 8]
    ensures Has(index, Middle)
  {
  }

  lemma AgainFacts(m: State, s: State)
    requires m.index == map[0 := 1, 10 := 6, 20 := 8] && Watching(m.threads) && Middle.id in m.contents
    requires s == Exchanged(m, 1, Middle, [Shorter, Rest])
    ensures s.index == map[0 := 1, 10 := 5, 15 := 7, 20 := 8]
    ensures s.threads == [Locking([Seen], 0, 0), Published([Middle])]
  {
    ReplaceTwo(m.index, Middle, Shorter, Rest);
  }

  lemma LockSeen(start: State, s: State)
    requires Reaches(start, s) && s.threads == [Locking([Seen], 0, 0), Published([Middle])]
    ensures Reaches(start, s.(threads := [Locking([Seen], 1, 0), Published([Middle])]))
  {
    IdsAre(Middle, Middle);
    assert Ids([Seen][..0]) == {};
    assert CanGrant(s, 5, O);
    ReachesNext(start, s, 0, LockOne);
    assert s.threads[0 := Locking([Seen], 1, 0)] == [Locking([Seen], 1, 0), Published([Middle])];
  }

  /** A state that can come about, in which a fully locked region is accepted although it is not in the index as it was seen. */
  lemma {:induction false} ValidationMissesUpper() returns (s: State)
    ensures Reachable(s) && |s.threads| == 2 && s.threads[0] == Locking([Seen], 1, 0)
    ensures Accepts(s.index, [Seen]) && !AllIn(s.index, [Seen]) && Has(s.index, Shorter)
  {
    StartIsInitial();
    var g := AgainRun();
    LockSeen(Start(), g);
    s := g.(threads := [Locking([Seen], 1, 0), Published([Middle])]);
    var moves :| IsRun(Start(), moves) && After(Start(), moves) == s;
    assert Leads(Start(), moves, s);
    MissedUpper(s.index);
  }

  lemma MissedUpper(index: Index)
    requires index == map[0 := 1, 10 := 5, 15 := 7, 20 := 8]
    ensures Accepts(index, [Seen]) && !AllIn(index, [Seen]) && Has(index, Shorter)
  {
    assert 15 in index;
    assert !Has(index, [Seen][0]);
  }
}
