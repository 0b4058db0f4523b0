// Segment locks, the segment index and rewrites, as a transition system whose steps are the latch-protected regions.
module SegmentProtocol {
  import opened Bytes

  type Key = nat
  type Id = nat
  type Records = map<Key, Bytestring>
  type Index = map<Key, Id>

  const MAX_KEY: Key := 0xFFFF_FFFF_FFFF_FFFF

  // ------------------------------------------------------------ the index

  /** A segment as the index describes it: lower bound inclusive, upper bound exclusive. */
  datatype Entry = Entry(lower: Key, upper: Key, id: Id) {
    predicate Contains(k: Key) {
      lower <= k < upper
    }
  }

  /** The index has the segment, with these bounds: its upper bound is the next lower bound. */
  ghost predicate Has(index: Index, e: Entry) {
    && e.lower < e.upper <= MAX_KEY
    && e.lower in index && index[e.lower] == e.id
    && (e.upper == MAX_KEY || e.upper in index)
    && (forall l | l in index :: !(e.lower < l < e.upper))
  }

  /** The whole key space is covered and no two segments share an id. */
  ghost predicate IndexOk(index: Index) {
    && 0 in index
    && (forall l | l in index :: l < MAX_KEY)
    && (forall k, l | k in index && l in index && index[k] == index[l] :: k == l)
  }

  /** Segments that share a key are the same. */
  lemma EntryUnique(index: Index, e: Entry, f: Entry, k: Key)
    requires Has(index, e) && Has(index, f) && e.Contains(k) && f.Contains(k)
    ensures e == f
  {
    assert e.lower in index && f.lower in index;
    assert e.upper != f.upper ==> e.upper in index || f.upper in index;
  }

  lemma SameId(index: Index, e: Entry, f: Entry)
    requires IndexOk(index) && Has(index, e) && Has(index, f) && e.id == f.id
    ensures e == f
  {
    assert e.lower == f.lower;
    EntryUnique(index, e, f, e.lower);
  }

  /** The smallest bound above `k`. */
  lemma {:induction false} NextBound(index: Index, k: Key) returns (u: Key)
    requires IndexOk(index) && k < MAX_KEY
    ensures k < u <= MAX_KEY && (u == MAX_KEY || u in index) && forall l | l in index :: !(k < l < u)
    decreases MAX_KEY - k
  {
    if k + 1 == MAX_KEY || k + 1 in index {
      u := k + 1;
    } else {
      u := NextBound(index, k + 1);
    }
  }

  lemma {:induction false} PreviousBound(index: Index, k: Key) returns (l: Key)
    requires IndexOk(index)
    ensures l <= k && l in index && forall m | m in index :: !(l < m <= k)
    decreases k
  {
    if k in index {
      l := k;
    } else {
      l := PreviousBound(index, k - 1);
    }
  }

  /** Every key belongs to a segment. */
  lemma EntryFor(index: Index, k: Key) returns (e: Entry)
    requires IndexOk(index) && k < MAX_KEY
    ensures Has(index, e) && e.Contains(k)
  {
    var l := PreviousBound(index, k);
    var u := NextBound(index, k);
    e := Entry(l, u, index[l]);
  }

  /** The segment after a key, as an upper-bound search finds it. */
  ghost predicate NextAfter(index: Index, k: Key, f: Entry) {
    Has(index, f) && k < f.lower && forall l | l in index && k < l :: f.lower <= l
  }

  /** The segment found after a segment's lower bound begins where that segment ends. */
  lemma NextIsAdjacent(index: Index, e: Entry, f: Entry)
    requires IndexOk(index) && Has(index, e) && NextAfter(index, e.lower, f)
    ensures f.lower == e.upper
  {
    assert f.lower in index;
  }

  // ------------------------------------------------------------ regions

  ghost function Ids(es: seq<Entry>): set<Id> {
    set i | 0 <= i < |es| :: es[i].id
  }

  ghost function Lowers(es: seq<Entry>): set<Key> {
    set i | 0 <= i < |es| :: es[i].lower
  }

  /** Segments that follow one another without a gap. */
  ghost predicate Chain(es: seq<Entry>) {
    && |es| > 0
    && (forall i | 0 <= i < |es| :: es[i].lower < es[i].upper)
    && (forall i | 0 <= i < |es| - 1 :: es[i].upper == es[i + 1].lower)
  }

  function Lo(es: seq<Entry>): Key
    requires |es| > 0
  {
    es[0].lower
  }

  /** Where the first `n` segments end. */
  function HiOf(es: seq<Entry>, n: nat): Key
    requires |es| > 0 && n <= |es|
  {
    if n == 0 then es[0].lower else es[n - 1].upper
  }

  function Hi(es: seq<Entry>): Key
    requires |es| > 0
  {
    HiOf(es, |es|)
  }

  lemma {:induction false} ChainBounds(es: seq<Entry>, i: nat)
    requires Chain(es) && i < |es|
    ensures Lo(es) <= es[i].lower < es[i].upper <= Hi(es)
    ensures i > 0 ==> Lo(es) < es[i].lower
    decreases |es| - i
  {
    ChainUp(es, i);
    if i + 1 < |es| {
      ChainBounds(es, i + 1);
    }
  }

  lemma {:induction false} ChainUp(es: seq<Entry>, i: nat)
    requires Chain(es) && i < |es|
    ensures Lo(es) <= es[i].lower && (i > 0 ==> Lo(es) < es[i].lower)
    decreases i
  {
    if i > 0 {
      ChainUp(es, i - 1);
      assert es[i - 1].upper == es[i].lower;
    }
  }

  /** A key between the ends of a chain is in one of its segments. */
  lemma {:induction false} ChainCovers(es: seq<Entry>, n: nat, k: Key) returns (i: nat)
    requires Chain(es) && n <= |es| && Lo(es) <= k < HiOf(es, n)
    ensures i < n && es[i].Contains(k)
    decreases n
  {
    if k >= es[n - 1].lower {
      i := n - 1;
    } else {
      assert n > 1 && es[n - 2].upper == es[n - 1].lower;
      i := ChainCovers(es, n - 1, k);
    }
  }

  ghost predicate AllIn(index: Index, es: seq<Entry>) {
    forall i | 0 <= i < |es| :: Has(index, es[i])
  }

  // ------------------------------------------------------------ contents

  ghost function Restrict(db: Records, lo: Key, hi: Key): Records {
    map k | k in db && lo <= k < hi :: db[k]
  }

  function Put(rs: Records, k: Key, v: Bytestring): Records {
    rs[k := v]
  }

  ghost predicate Within(rs: Records, lo: Key, hi: Key) {
    forall k | k in rs :: lo <= k < hi
  }

  // ------------------------------------------------------------ locks

  /** The lock modes, with the wait for readers before an exclusive lock counts as granted. */
  datatype Mode = IR | IW | O | Draining | OX

  predicate Compatible(a: Mode, b: Mode) {
    match a
    case IR => b != OX
    case IW => b == IR || b == IW
    case O => b == IR
    case Draining => b == IR
    case OX => false
  }

  /** A new lock can join one that is held; readers do not join a wait for readers. */
  predicate Grants(m: Mode, held: Mode) {
    Compatible(m, held) && !(m == IR && held == Draining)
  }

  // ------------------------------------------------------------ threads

  datatype Thread =
    | Idle
    /** A lookup or scan that has come to `e`, the last of the segments it visited. */
    | Reading(e: Entry, visited: seq<Entry>)
    | Writing(e: Entry)
    /** A scan that holds two neighbours. */
    | Coupling(e: Entry, f: Entry, visited: seq<Entry>)
    /** A rewrite that has locked the first `n` segments of a region it saw in the index, when `since` builds had been made. */
    | Locking(region: seq<Entry>, n: nat, since: nat)
    /** A rewrite of a validated region that has read the first `n` segments. */
    | Rewriting(region: seq<Entry>, n: nat, buf: Records, extra: Records)
    /** A rewrite that has written its new segments and has exclusive locks on the first `n` old ones. */
    | Upgrading(region: seq<Entry>, news: seq<Entry>, extra: Records, n: nat, waiting: bool)
    /** A rewrite whose old segments are not in the index any more. */
    | Published(region: seq<Entry>)
    | Freeing(region: seq<Entry>)

  /** The locks that a thread in this state holds. */
  ghost predicate Holds(th: Thread, id: Id, m: Mode) {
    match th
    case Idle => false
    case Reading(e, _) => m == IR && id == e.id
    case Writing(e) => m == IW && id == e.id
    case Coupling(e, f, _) => m == IR && (id == e.id || id == f.id)
    case Locking(region, n, _) => n <= |region| && m == O && id in Ids(region[..n])
    case Rewriting(region, _, _, _) => m == O && id in Ids(region)
    case Upgrading(region, _, _, n, waiting) =>
      || (m == OX && n <= |region| && id in Ids(region[..n]))
      || (m == Draining && waiting && n < |region| && id == region[n].id)
      || (m == O && !waiting && n <= |region| && id in Ids(region[n..]))
      || (m == O && waiting && n < |region| && id in Ids(region[n + 1..]))
    case Published(region) => m == OX && id in Ids(region)
    case Freeing(_) => false
  }

  // ------------------------------------------------------------ states

  /** What a segment id is used for. */
  datatype Owner = Free | Indexed | Private(t: nat) | Doomed(t: nat)

  datatype State = State(
    index: Index,
    free: set<Id>,
    contents: map<Id, Records>,
    db: Records,
    owner: map<Id, Owner>,
    threads: seq<Thread>,
    /** The ids that rewrites have written new segments under, rewrite by rewrite. */
    built: seq<set<Id>>)

  /** No thread's lock on the segment conflicts with the mode. */
  ghost predicate CanGrant(s: State, id: Id, m: Mode) {
    forall u, held | 0 <= u < |s.threads| && Holds(s.threads[u], id, held) ::
      Grants(m, held)
  }

  /** Validation looks at lower bounds and ids, one after the other; it does not look at the last upper bound. */
  ghost predicate Accepts(index: Index, region: seq<Entry>) {
    && (forall i | 0 <= i < |region| :: region[i].lower in index && index[region[i].lower] == region[i].id)
    && (forall i, l | 0 <= i < |region| - 1 && l in index :: !(region[i].lower < l < region[i + 1].lower))
  }

  /** No rewrite has used one of the ids again since then. */
  ghost predicate NotRebuilt(built: seq<set<Id>>, since: nat, ids: set<Id>) {
    forall i | since <= i < |built| :: built[i] !! ids
  }

  /** No reader has a lock on the segment. */
  ghost predicate Drained(s: State, id: Id) {
    forall u | 0 <= u < |s.threads| :: !Holds(s.threads[u], id, IR)
  }

  ghost function SetOwner(owner: map<Id, Owner>, ids: set<Id>, o: Owner): map<Id, Owner> {
    map id | id in owner.Keys + ids :: if id in ids then o else owner[id]
  }

  /** The new segments' contents written out. */
  ghost function WriteSegments(contents: map<Id, Records>, news: seq<Entry>, merged: Records): map<Id, Records> {
    if |news| == 0 then contents
    else
      var e := news[|news| - 1];
      WriteSegments(contents, news[..|news| - 1], merged)[e.id := Restrict(merged, e.lower, e.upper)]
  }

  ghost function InsertAll(index: Index, es: seq<Entry>): Index {
    if |es| == 0 then index
    else InsertAll(index, es[..|es| - 1])[es[|es| - 1].lower := es[|es| - 1].id]
  }

  /** The old segments erased and the new ones inserted. */
  ghost function Replace(index: Index, region: seq<Entry>, news: seq<Entry>): Index {
    InsertAll(index - Lowers(region), news)
  }

  // ------------------------------------------------------------ steps

  datatype Action =
    | LockRead(e: Entry)
    | LockWrite(e: Entry)
    | Unlock
    | Write(k: Key, v: Bytestring)
    | LockNext(f: Entry)
    | UnlockPrevious
    | Snapshot(region: seq<Entry>)
    | LockOne
    | Abandon
    | Validate(extra: Records)
    | LockSingle(e: Entry, extra: Records)
    | ReadSegment
    | Build(news: seq<Entry>)
    | BeginUpgrade
    | FinishUpgrade
    | Invalidate(i: nat)
    | Publish
    | ReleaseOld
    | InvalidateRest(i: nat)
    | FreeOld

  /** The records of a region overlaid by the additional ones. */
  ghost function Merged(th: Thread): Records
    requires th.Rewriting?
  {
    th.buf + th.extra
  }

  ghost predicate Distinct(es: seq<Entry>) {
    forall i, j | 0 <= i < j < |es| :: es[i].id != es[j].id
  }

  /** When thread `t` can take the step. */
  ghost predicate Enabled(s: State, t: nat, a: Action) {
    t < |s.threads| &&
    var th := s.threads[t];
    match a
    case LockRead(e) => th.Idle? && Has(s.index, e) && CanGrant(s, e.id, IR)
    case LockWrite(e) => th.Idle? && Has(s.index, e) && CanGrant(s, e.id, IW)
    case Unlock => th.Reading? || th.Writing?
    case Write(k, v) => th.Writing? && th.e.Contains(k) && th.e.id in s.contents
    case LockNext(f) => th.Reading? && NextAfter(s.index, th.e.lower, f) && CanGrant(s, f.id, IR)
    case UnlockPrevious => th.Coupling?
    case Snapshot(region) => th.Idle? && Chain(region) && AllIn(s.index, region)
    case LockOne => th.Locking? && th.n < |th.region| && CanGrant(s, th.region[th.n].id, O)
    case Abandon => th.Locking?
    case Validate(extra) =>
      && th.Locking? && th.n == |th.region| > 0 && Accepts(s.index, th.region)
      && NotRebuilt(s.built, th.since, Ids(th.region)) && Within(extra, Lo(th.region), Hi(th.region))
    case LockSingle(e, extra) =>
      th.Idle? && Has(s.index, e) && CanGrant(s, e.id, O) && Within(extra, e.lower, e.upper)
    case ReadSegment => th.Rewriting? && th.n < |th.region| && th.region[th.n].id in s.contents
    case Build(news) =>
      && th.Rewriting? && th.n == |th.region| > 0
      && Chain(news) && Hi(news) == Hi(th.region) && Distinct(news)
      && (forall i | 0 <= i < |news| :: news[i].lower in Merged(th))
      && (forall k | k in Merged(th) :: Lo(news) <= k)
      && (forall i | 0 <= i < |news| :: news[i].id in s.owner ==> s.owner[news[i].id].Free?)
    case BeginUpgrade => th.Upgrading? && th.n < |th.region| && !th.waiting
    case FinishUpgrade => th.Upgrading? && th.n < |th.region| && th.waiting && Drained(s, th.region[th.n].id)
    case Invalidate(i) => th.Upgrading? && th.n == |th.region| && i < |th.region|
    case Publish => th.Upgrading? && th.n == |th.region| > 0
    case ReleaseOld => th.Published?
    case InvalidateRest(i) => th.Freeing? && i < |th.region|
    case FreeOld => th.Freeing?
  }

  /** The thread's state after the step. */
  ghost function NextThread(s: State, t: nat, a: Action): Thread
    requires Enabled(s, t, a)
  {
    var th := s.threads[t];
    match a
    case LockRead(e) => Reading(e, [e])
    case LockWrite(e) => Writing(e)
    case Unlock => Idle
    case Write(k, v) => th
    case LockNext(f) => Coupling(th.e, f, th.visited)
    case UnlockPrevious => Reading(th.f, th.visited + [th.f])
    case Snapshot(region) => Locking(region, 0, |s.built|)
    case LockOne => Locking(th.region, th.n + 1, th.since)
    case Abandon => Idle
    case Validate(extra) => Rewriting(th.region, 0, map[], extra)
    case LockSingle(e, extra) => Rewriting([e], 0, map[], extra)
    case ReadSegment => th.(n := th.n + 1, buf := th.buf + s.contents[th.region[th.n].id])
    case Build(news) => Upgrading(th.region, news, th.extra, 0, false)
    case BeginUpgrade => th.(waiting := true)
    case FinishUpgrade => th.(n := th.n + 1, waiting := false)
    case Invalidate(_) => th
    case Publish => Published(th.region)
    case ReleaseOld => Freeing(th.region)
    case InvalidateRest(_) => th
    case FreeOld => Idle
  }

  /** The state after the step. */
  ghost function Next(s: State, t: nat, a: Action): State
    requires Enabled(s, t, a)
  {
    var th := s.threads[t];
    var s' := s.(threads := s.threads[t := NextThread(s, t, a)]);
    match a
    case Write(k, v) => s'.(contents := s.contents[th.e.id := Put(s.contents[th.e.id], k, v)], db := Put(s.db, k, v))
    case Build(news) =>
      s'.(contents := WriteSegments(s.contents, news, Merged(th)),
          free := s.free - Ids(news),
          owner := SetOwner(s.owner, Ids(news), Private(t)),
          built := s.built + [Ids(news)])
    case Invalidate(i) =>
      s'.(contents := s.contents[th.region[i].id := map[]],
          owner := s.owner[th.region[i].id := Doomed(t)])
    case Publish =>
      s'.(index := Replace(s.index, th.region, th.news),
          db := s.db + th.extra,
          owner := SetOwner(SetOwner(s.owner, Ids(th.region), Private(t)), Ids(th.news), Indexed))
    case InvalidateRest(i) => s'.(contents := s.contents[th.region[i].id := map[]])
    case FreeOld =>
      s'.(free := s.free + Ids(th.region),
          owner := SetOwner(s.owner, Ids(th.region), Free))
    case _ => s'
  }
}
