// The buffer manager: pages are fixed in frames, changed there, and written back when they are evicted.
module BufferManager {
  import Queue = HashQueue
  import opened BufferPool

  /** All that holds of a pool that clients see as the view. */
  ghost predicate Sound(frames: map<nat, Frame>, table: map<PageId, nat>, disk: map<PageId, Data>, touched: set<nat>,
                        fifo: seq<nat>, lru: seq<nat>, unused: nat, v: View) {
    && Mapped(frames, table) && Saved(frames, disk, touched) && Queued(frames, fifo, lru) && Shows(frames, table, disk, v)
    && (forall f {:trigger BelowAt(frames, unused, f)} :: BelowAt(frames, unused, f)) && Invalid !in disk
  }

  ghost predicate BelowAt(frames: map<nat, Frame>, unused: nat, f: nat) {
    f in frames ==> f < unused
  }

  lemma BelowStays(frames: map<nat, Frame>, unused: nat, frames': map<nat, Frame>, unused': nat)
    requires forall f {:trigger BelowAt(frames, unused, f)} :: BelowAt(frames, unused, f)
    requires unused <= unused' && forall f | f in frames' && f !in frames :: f < unused'
    ensures forall f {:trigger BelowAt(frames', unused', f)} :: BelowAt(frames', unused', f)
  {
    forall f
      ensures BelowAt(frames', unused', f)
    {
      assert BelowAt(frames, unused, f);
    }
  }

  /** There is a frame to evict exactly if fewer pages are fixed than there are frames. */
  lemma QueuedIffRoom(frames: map<nat, Frame>, table: map<PageId, nat>, disk: map<PageId, Data>, fifo: seq<nat>, lru: seq<nat>, v: View)
    requires Mapped(frames, table) && Queued(frames, fifo, lru) && Shows(frames, table, disk, v)
    ensures |v.fixes| < |frames| <==> (|fifo| > 0 || |lru| > 0)
  {
    FreeIffRoom(frames, table, disk, v);
    if f :| f in frames && frames[f].fixes == 0 {
      assert QueuedAt(frames, fifo, lru, f);
    }
    if |fifo| > 0 {
      assert fifo[0] in fifo && KnownAt(frames, fifo, lru, fifo[0]);
      assert QueuedAt(frames, fifo, lru, fifo[0]);
    }
    if |lru| > 0 {
      assert lru[0] in lru && KnownAt(frames, fifo, lru, lru[0]);
      assert QueuedAt(frames, fifo, lru, lru[0]);
    }
  }

  lemma QueuedKnown(frames: map<nat, Frame>, fifo: seq<nat>, lru: seq<nat>)
    requires Queued(frames, fifo, lru)
    ensures forall f | f in fifo || f in lru :: f in frames
  {
    forall f | f in fifo || f in lru
      ensures f in frames
    {
      assert KnownAt(frames, fifo, lru, f);
    }
  }

  lemma CachedCanFix(frames: map<nat, Frame>, table: map<PageId, nat>, disk: map<PageId, Data>, v: View, p: PageId)
    requires Mapped(frames, table) && Shows(frames, table, disk, v) && p in table
    ensures p in v.fixes || |v.fixes| < |frames|
  {
    assert Leads(frames, table, p) && ShowsFixes(frames, table, v, p);
    FreeIffRoom(frames, table, disk, v);
  }

  lemma NotCached(frames: map<nat, Frame>, table: map<PageId, nat>, disk: map<PageId, Data>, v: View, p: PageId)
    requires Shows(frames, table, disk, v) && p !in table && p in disk
    ensures p !in v.fixes && p in v.contents && v.contents[p] == disk[p]
  {
    assert ShowsFixes(frames, table, v, p) && ShowsData(frames, table, disk, v, p);
  }

  lemma RestWithout(s: seq<nat>, k: int)
    requires 0 <= k < |s| && Queue.Distinct(s)
    ensures Without(s, s[k], Queue.Cut(s, k)) && Queue.Cut(s, 0) == s[1..]
  {
    Queue.CutDistinct(s, k);
  }

  /** The frame at the front of a queue was not fixed, and is in neither queue any more. */
  lemma EvictedFrom(frames: map<nat, Frame>, fifo: seq<nat>, lru: seq<nat>, f: nat, fifo': seq<nat>, lru': seq<nat>)
    requires Queued(frames, fifo, lru) && Queue.Distinct(fifo) && Queue.Distinct(lru)
    requires if |fifo| > 0 then f == fifo[0] && fifo' == fifo[1..] && lru' == lru
             else |lru| > 0 && f == lru[0] && fifo' == fifo && lru' == lru[1..]
    ensures f in frames && frames[f].fixes == 0 && Without(fifo, f, fifo') && Without(lru, f, lru')
  {
    if |fifo| > 0 {
      assert f in fifo;
      RestWithout(fifo, 0);
    } else {
      assert f in lru;
      RestWithout(lru, 0);
    }
    assert KnownAt(frames, fifo, lru, f);
    assert QueuedAt(frames, fifo, lru, f);
  }

  /** Taking the frame at the front of a queue out of the pool. */
  lemma {:induction false} Evicting(frames: map<nat, Frame>, table: map<PageId, nat>, disk: map<PageId, Data>, touched: set<nat>,
                 fifo: seq<nat>, lru: seq<nat>, unused: nat, v: View, f: nat, fifo': seq<nat>, lru': seq<nat>)
    requires Sound(frames, table, disk, touched, fifo, lru, unused, v) && Queue.Distinct(fifo) && Queue.Distinct(lru)
    requires if |fifo| > 0 then f == fifo[0] && fifo' == fifo[1..] && lru' == lru
             else |lru| > 0 && f == lru[0] && fifo' == fifo && lru' == lru[1..]
    ensures f in frames && frames[f].fixes == 0 && f < unused && |frames - {f}| == |frames| - 1
    ensures Sound(frames - {f}, table - {frames[f].page}, WrittenOut(disk, frames[f]), touched, fifo', lru', unused, v)
    ensures WrittenOut(disk, frames[f]).Keys == disk.Keys
  {
    EvictedFrom(frames, fifo, lru, f, fifo', lru');
    EvictMapped(frames, table, f);
    EvictSaved(frames, table, disk, touched, f);
    EvictShows(frames, table, disk, touched, f, v);
    EvictQueued(frames, fifo, lru, f, fifo', lru');
    BelowStays(frames, unused, frames - {f}, unused);
    assert BelowAt(frames, unused, f);
    assert (frames - {f})[f := frames[f]] == frames;
  }

  /** Putting a page into a frame of its own. */
  lemma Installing(frames: map<nat, Frame>, table: map<PageId, nat>, disk: map<PageId, Data>, touched: set<nat>,
                   fifo: seq<nat>, lru: seq<nat>, unused: nat, v: View, f: nat, frame: Frame, marked: set<nat>)
    requires Sound(frames, table, disk, touched, fifo, lru, unused, v) && f !in frames && f < unused
    requires frame.valid && frame.page in disk && frame.page !in table && frame.fixes == 1 && !frame.fifo && !frame.lru
    requires marked == touched + {f} || (marked == touched && frame.data == disk[frame.page])
    ensures Sound(frames[f := frame], table[frame.page := f], disk, marked, fifo, lru, unused,
                  SetContents(SetFixes(v, frame.page, 1), frame.page, frame.data))
  {
    InstallMapped(frames, table, f, frame);
    InstallSaved(frames, disk, touched, f, frame, marked);
    InstallQueued(frames, fifo, lru, f, frame);
    InstallShows(frames, table, disk, f, frame, v);
    BelowStays(frames, unused, frames[f := frame], unused);
  }

  /** Changing a frame that keeps its page. */
  lemma {:induction false} Changing(frames: map<nat, Frame>, table: map<PageId, nat>, disk: map<PageId, Data>, touched: set<nat>,
                 fifo: seq<nat>, lru: seq<nat>, unused: nat, v: View, f: nat, frame: Frame, disk': map<PageId, Data>, marked: set<nat>,
                 fifo': seq<nat>, lru': seq<nat>)
    requires Sound(frames, table, disk, touched, fifo, lru, unused, v) && f in frames
    requires frames[f].valid && frame.valid && frame.page == frames[f].page
    requires disk' == disk || disk' == disk[frame.page := frame.data]
    requires frame.dirty || f in marked || (frame.page in disk' && frame.data == disk'[frame.page])
    requires (marked == touched || marked == touched - {f} || marked == touched + {f}) && (f in marked ==> frame.fixes > 0)
    requires Queued(frames[f := frame], fifo', lru')
    ensures Sound(frames[f := frame], table, disk', marked, fifo', lru', unused,
                  SetContents(SetFixes(v, frame.page, frame.fixes), frame.page, frame.data))
    ensures FixesAt(v, frame.page) == frames[f].fixes && frame.page in v.contents && v.contents[frame.page] == frames[f].data
    ensures |frames[f := frame]| == |frames| && disk'.Keys == disk.Keys
  {
    assert SavedAt(frames, disk, touched, f) && Led(frames, table, f);
    ChangeMapped(frames, table, f, frame);
    ChangeSaved(frames, table, disk, touched, f, frame, disk', marked);
    ChangeShows(frames, table, disk, f, frame, disk', v);
    BelowStays(frames, unused, frames[f := frame], unused);
    Replaced(frames, f, frame);
  }

  lemma Replaced(frames: map<nat, Frame>, f: nat, frame: Frame)
    requires f in frames
    ensures (frames - {f})[f := frame] == frames[f := frame] && |frames[f := frame]| == |frames|
  {
    assert frames[f := frame].Keys == frames.Keys;
    assert |frames[f := frame].Keys| == |frames[f := frame]| && |frames.Keys| == |frames|;
  }

  /** What is fixed is a page in a frame, and a page that is not dirty, though not as on disk, was touched. */
  lemma FixedIsValid(frames: map<nat, Frame>, table: map<PageId, nat>, disk: map<PageId, Data>, touched: set<nat>, f: nat)
    requires Mapped(frames, table) && Saved(frames, disk, touched) && f in frames && frames[f].fixes > 0
    ensures frames[f].valid && frames[f].page in disk
    ensures frames[f].dirty || f in touched || frames[f].data == disk[frames[f].page]
  {
    assert Led(frames, table, f) && SavedAt(frames, disk, touched, f);
  }

  /** A frame that was taken out of the queue that its flags tell is in none. */
  lemma DeletedFrom(frames: map<nat, Frame>, fifo: seq<nat>, lru: seq<nat>, f: nat, fifo': seq<nat>, lru': seq<nat>)
    requires Queued(frames, fifo, lru) && Queue.Distinct(fifo) && Queue.Distinct(lru) && f in frames
    requires if frames[f].lru then fifo' == fifo && Queue.TakenOut(lru, f, lru') else Queue.TakenOut(fifo, f, fifo') && lru' == lru
    ensures Without(fifo, f, fifo') && Without(lru, f, lru')
  {
    assert QueuedAt(frames, fifo, lru, f);
    if frames[f].lru {
      var k :| 0 <= k < |lru| && lru[k] == f && lru' == Queue.Cut(lru, k);
      RestWithout(lru, k);
    } else {
      var k :| 0 <= k < |fifo| && fifo[k] == f && fifo' == Queue.Cut(fifo, k);
      RestWithout(fifo, k);
    }
  }

  lemma SameFrames(frames: map<nat, Frame>, f: nat, frames': map<nat, Frame>)
    requires f in frames && frames' == frames[f := frames[f]]
    ensures frames' == frames
  {
  }

  /** A frame that was fixed for the first time has left the queue that its flags tell. */
  ghost predicate Retained(fifo: seq<nat>, lru: seq<nat>, f: nat, frame: Frame, fifo': seq<nat>, lru': seq<nat>) {
    if frame.fixes != 1 then fifo' == fifo && lru' == lru
    else if frame.lru then fifo' == fifo && Queue.TakenOut(lru, f, lru')
    else Queue.TakenOut(fifo, f, fifo') && lru' == lru
  }

  /** A frame that nobody has fixed any more is at the back of the first queue, or of the second if it was in the first before. */
  ghost predicate Released(fifo: seq<nat>, lru: seq<nat>, f: nat, frame: Frame, frame': Frame, fifo': seq<nat>, lru': seq<nat>) {
    if frame.fixes > 0 then frame' == frame && fifo' == fifo && lru' == lru
    else if frame.fifo then frame' == frame.(lru := true) && fifo' == fifo && lru' == lru + [f]
    else frame' == frame.(fifo := true) && fifo' == fifo + [f] && lru' == lru
  }

  /** The frame was the first that waits in the two queues, one behind the other. */
  ghost predicate Evicted(fifo: seq<nat>, lru: seq<nat>, f: nat, fifo': seq<nat>, lru': seq<nat>) {
    if |fifo| > 0 then f == fifo[0] && fifo' == fifo[1..] && lru' == lru
    else |lru| > 0 && f == lru[0] && fifo' == fifo && lru' == lru[1..]
  }

  function GivenUp(frame: Frame, dirty: bool): Frame
    requires frame.fixes > 0
  {
    frame.(dirty := frame.dirty || dirty, fixes := frame.fixes - 1)
  }

  /** What clients see once they have fixed a page and found the data. */
  ghost function FixedOnce(v: View, p: PageId, data: Data): View {
    SetContents(SetFixes(v, p, FixesAt(v, p) + 1), p, data)
  }

  lemma FixedFirst(v: View, p: PageId, data: Data)
    requires FixesAt(v, p) == 0
    ensures FixedOnce(v, p, data) == SetContents(SetFixes(v, p, 1), p, data)
  {
  }

  /** All that the buffer manager has. */
  datatype Pool = Pool(frames: map<nat, Frame>, table: map<PageId, nat>, disk: map<PageId, Data>, fifo: seq<nat>, lru: seq<nat>)

  /** The page is fixed once more in the frame that has it. */
  ghost predicate Hit(a: Pool, p: PageId, f: nat, b: Pool) {
    && p in a.table && f == a.table[p] && f in a.frames
    && b == Pool(a.frames[f := a.frames[f].(fixes := a.frames[f].fixes + 1)], a.table, a.disk, b.fifo, b.lru)
    && Retained(a.fifo, a.lru, f, b.frames[f], b.fifo, b.lru)
  }

  /** Empty frames have joined the first queue, one after the other. */
  ghost function Grown(a: Pool, unused: nat, n: nat): Pool {
    if n == 0 then a else OneMore(Grown(a, unused, n - 1), unused + n - 1)
  }

  lemma {:induction false} GrownNext(a: Pool, unused: nat, n: nat)
    ensures Grown(a, unused, n + 1) == OneMore(Grown(a, unused, n), unused + n)
  {
  }

  ghost function OneMore(a: Pool, f: nat): Pool {
    a.(frames := a.frames[f := NewFrame().(fifo := true)], fifo := a.fifo + [f])
  }

  /** The page of the frame that waited longest is gone, and was written out if it was dirty. */
  ghost predicate Emptied(a: Pool, f: nat, b: Pool) {
    && f in a.frames && Evicted(a.fifo, a.lru, f, b.fifo, b.lru)
    && b == Pool(a.frames - {f}, a.table - {a.frames[f].page}, WrittenOut(a.disk, a.frames[f]), b.fifo, b.lru)
  }

  /** The page is in a frame of its own. */
  ghost predicate Loaded(a: Pool, p: PageId, newly: bool, data: Data, f: nat, b: Pool) {
    && p in a.disk
    && b == a.(frames := a.frames[f := Frame(p, if newly then data else a.disk[p], false, false, false, true, 1)], table := a.table[p := f])
  }

  lemma EmptiedAndLoaded(a: Pool, f: nat, b: Pool, p: PageId, newly: bool, c: Pool)
    requires Emptied(a, f, b) && Loaded(b, p, newly, a.frames[f].data, f, c)
    ensures Miss(a, p, newly, f, c)
  {
    Replaced(a.frames, f, c.frames[f]);
  }

  /** The frame that waited longest is gone; its page is not written out yet. */
  ghost predicate TakenAway(a: Pool, f: nat, frame: Frame, b: Pool) {
    && f in a.frames && frame == a.frames[f].(fifo := false, lru := false) && Evicted(a.fifo, a.lru, f, b.fifo, b.lru)
    && b == Pool(a.frames - {f}, a.table - {frame.page}, a.disk, b.fifo, b.lru)
  }

  /** The frames that waited longest are gone, in that order. */
  ghost predicate Shrunk(a: Pool, evicted: seq<Frame>, b: Pool) {
    var n := |evicted|;
    && n <= |a.fifo + a.lru| && b.fifo + b.lru == (a.fifo + a.lru)[n..]
    && (forall i | 0 <= i < n ::
          (a.fifo + a.lru)[i] in a.frames && evicted[i] == a.frames[(a.fifo + a.lru)[i]].(fifo := false, lru := false))
    && (forall f :: f in b.frames <==> f in a.frames && f !in (a.fifo + a.lru)[..n])
    && (forall f | f in b.frames :: b.frames[f] == a.frames[f])
  }

  lemma ShrunkNext(a: Pool, evicted: seq<Frame>, b: Pool, f: nat, frame: Frame, c: Pool)
    requires Shrunk(a, evicted, b) && TakenAway(b, f, frame, c)
    ensures Shrunk(a, evicted + [frame], c)
  {
    var w, n := a.fifo + a.lru, |evicted|;
    assert (b.fifo + b.lru)[0] == f && c.fifo + c.lru == (b.fifo + b.lru)[1..];
    assert w[n] == f && w[n..][1..] == w[n + 1..];
    assert w[..n + 1] == w[..n] + [f];
  }

  lemma ShrunkAnyDisk(a: Pool, evicted: seq<Frame>, b: Pool, disk: map<PageId, Data>)
    requires Shrunk(a, evicted, b)
    ensures Shrunk(a, evicted, b.(disk := disk))
  {
  }

  /** Frames are gone, and `pages` is the disk once they are written out. */
  ghost predicate Drained(a: Pool, disk: map<PageId, Data>, evicted: seq<Frame>, pages: map<PageId, Data>, b: Pool) {
    Shrunk(a, evicted, b) && pages == WrittenAll(disk, evicted) && pages.Keys == disk.Keys
  }

  lemma DrainedNone(a: Pool, disk: map<PageId, Data>)
    ensures Drained(a, disk, [], disk, a)
  {
  }

  lemma DrainedNext(a: Pool, disk: map<PageId, Data>, evicted: seq<Frame>, pages: map<PageId, Data>, b: Pool, f: nat, frame: Frame, c: Pool)
    requires Drained(a, disk, evicted, pages, b) && TakenAway(b, f, frame, c) && WrittenOut(pages, frame).Keys == pages.Keys
    ensures Drained(a, disk, evicted + [frame], WrittenOut(pages, frame), c)
  {
    ShrunkNext(a, evicted, b, f, frame, c);
    WrittenNext(disk, evicted, frame);
  }

  /** The page is fixed in a frame that was emptied for it; a new page is not read in. */
  ghost predicate Miss(a: Pool, p: PageId, newly: bool, f: nat, b: Pool) {
    && f in a.frames && Evicted(a.fifo, a.lru, f, b.fifo, b.lru) && p in b.disk
    && b == Pool(a.frames[f := Frame(p, if newly then a.frames[f].data else b.disk[p], false, false, false, true, 1)],
                 (a.table - {a.frames[f].page})[p := f], WrittenOut(a.disk, a.frames[f]), b.fifo, b.lru)
  }

  class BufferManager {
    var frames: map<nat, Frame>
    var table: map<PageId, nat>
    var disk: map<PageId, Data>
    var size: nat
    var unused: nat
    const queues: TwoQueue
    /** The frames whose pages were changed by who has them fixed, and are not marked dirty yet. */
    ghost var touched: set<nat>
    /** What clients see. */
    ghost var view: View

    ghost predicate Intact(pages: map<PageId, Data>)
      reads this, queues, queues.fifo, queues.lru
    {
      queues.Valid() && Sound(frames, table, pages, touched, queues.fifo.Items(), queues.lru.Items(), unused, view)
    }

    ghost predicate Valid()
      reads this, queues, queues.fifo, queues.lru
    {
      Intact(disk) && |frames| == size == view.size
    }

    ghost function Fifo(): seq<nat>
      requires queues.Valid()
      reads queues, queues.fifo, queues.lru
    {
      queues.fifo.Items()
    }

    ghost function Lru(): seq<nat>
      requires queues.Valid()
      reads queues, queues.fifo, queues.lru
    {
      queues.lru.Items()
    }

    ghost function All(): Pool
      requires queues.Valid()
      reads this, queues, queues.fifo, queues.lru
    {
      Pool(frames, table, disk, queues.fifo.Items(), queues.lru.Items())
    }

    constructor (pool: nat, pages: map<PageId, Data>)
      requires Invalid !in pages
      ensures Valid() && fresh(queues.fifo) && fresh(queues.lru) && view == View(pages, map[], pool) && touched == {}
    {
      frames, table, disk, size, unused, touched, view := map[], map[], pages, 0, 0, {}, View(pages, map[], 0);
      queues := new TwoQueue();
      new;
      var diff := IncreaseNumPages(pool);
    }

    /** Adds empty frames, which are the first to be used. */
    method IncreaseNumPages(diff: nat) returns (change: int)
      requires Valid()
      modifies this`frames, this`unused, this`size, this`view, queues.fifo, queues.lru
      ensures Valid() && change == diff && view == old(view).(size := old(size) + diff)
      ensures All() == Grown(old(All()), old(unused), diff)
    {
      AddFrames(diff);
      size, view := size + diff, view.(size := size + diff);
      Resized(frames, table, disk, old(view), view);
      return diff;
    }

    method AddFrames(n: nat)
      requires Intact(disk)
      modifies this`frames, this`unused, queues.fifo, queues.lru
      ensures Intact(disk) && |frames| == |old(frames)| + n && unused == old(unused) + n
      ensures All() == Grown(old(All()), old(unused), n)
    {
      ghost var start, first := All(), unused;
      for i := 0 to n
        invariant Intact(disk) && |frames| == |old(frames)| + i && unused == first + i && All() == Grown(start, first, i)
      {
        AddNext(start, first, i);
      }
    }

    method AddNext(ghost start: Pool, ghost first: nat, ghost i: nat)
      requires Intact(disk) && unused == first + i && All() == Grown(start, first, i)
      modifies this`frames, this`unused, queues.fifo, queues.lru
      ensures Intact(disk) && |frames| == |old(frames)| + 1 && unused == first + i + 1 && All() == Grown(start, first, i + 1)
    {
      GrownNext(start, first, i);
      AddFrame();
    }

    method AddFrame()
      requires Intact(disk)
      modifies this`frames, this`unused, queues.fifo, queues.lru
      ensures Intact(disk) && |frames| == |old(frames)| + 1 && unused == old(unused) + 1
      ensures All() == OneMore(old(All()), old(unused))
    {
      ghost var fifo, lru := queues.fifo.Items(), queues.lru.Items();
      assert BelowAt(frames, unused, unused) && KnownAt(frames, fifo, lru, unused);
      GrowSteps(frames, table, disk, touched, fifo, lru, unused);
      BelowStays(frames, unused, frames[unused := NewFrame().(fifo := true)], unused + 1);
      GrowShows(frames, table, disk, unused, NewFrame().(fifo := true), view);
      var frame := queues.Insert(unused, NewFrame());
      frames, unused := frames[unused := frame], unused + 1;
    }

    /** Takes a frame that gets fixed out of the queues. */
    method Retain(f: nat, frame: Frame)
      requires queues.Valid() && Queued(frames, queues.fifo.Items(), queues.lru.Items())
      requires f in frames && frame == frames[f].(fixes := frames[f].fixes + 1)
      modifies queues.fifo, queues.lru
      ensures queues.Valid() && Queued(frames[f := frame], queues.fifo.Items(), queues.lru.Items())
      ensures Retained(old(Fifo()), old(Lru()), f, frame, Fifo(), Lru())
    {
      ghost var fifo, lru := queues.fifo.Items(), queues.lru.Items();
      assert QueuedAt(frames, fifo, lru, f);
      if frame.fixes == 1 {
        queues.ItemsDistinct();
        queues.Delete(f, frame);
        DeletedFrom(frames, fifo, lru, f, queues.fifo.Items(), queues.lru.Items());
      }
      ChangeQueued(frames, fifo, lru, f, frame, queues.fifo.Items(), queues.lru.Items());
    }

    /** Makes a frame a candidate for eviction if it is not fixed any more. */
    method Release(f: nat, frame: Frame) returns (frame': Frame)
      requires queues.Valid() && Queued(frames, queues.fifo.Items(), queues.lru.Items())
      requires f in frames && frames[f].fixes > 0 && frame.fifo == frames[f].fifo && frame.lru == frames[f].lru
      modifies queues.fifo, queues.lru
      ensures queues.Valid() && Queued(frames[f := frame'], queues.fifo.Items(), queues.lru.Items())
      ensures Released(old(Fifo()), old(Lru()), f, frame, frame', Fifo(), Lru())
    {
      ghost var fifo, lru := queues.fifo.Items(), queues.lru.Items();
      assert QueuedAt(frames, fifo, lru, f);
      frame' := frame;
      if frame.fixes == 0 {
        frame' := queues.Insert(f, frame);
      }
      ChangeQueued(frames, fifo, lru, f, frame', queues.fifo.Items(), queues.lru.Items());
    }

    /** Fixes a page that is in a frame. */
    method FixHit(p: PageId) returns (f: nat)
      requires Valid() && p in table && p in disk
      modifies this`frames, this`view, queues.fifo, queues.lru
      ensures Valid() && f in frames && frames == old(frames)[f := frames[f]]
      ensures frames[f].page == p && frames[f].fixes > 0 && p in old(view).contents && frames[f].data == old(view).contents[p]
      ensures view == SetFixes(old(view), p, FixesAt(old(view), p) + 1)
      ensures Hit(old(All()), p, f, All())
      ensures view == FixedOnce(old(view), p, frames[f].data)
    {
      assert Leads(frames, table, p) && SavedAt(frames, disk, touched, table[p]);
      f := table[p];
      var frame := frames[f].(fixes := frames[f].fixes + 1);
      ghost var fifo, lru := queues.fifo.Items(), queues.lru.Items();
      Retain(f, frame);
      Changing(frames, table, disk, touched, fifo, lru, unused, view, f, frame, disk, touched, queues.fifo.Items(), queues.lru.Items());
      SameView(SetFixes(view, p, frame.fixes), p, frame.fixes, frame.data);
      frames, view := frames[f := frame], SetFixes(view, p, frame.fixes);
    }

    /** Takes the frame to evict out of the queues, the table and the pool. Its page still has to be written out. */
    method EvictFrame(ghost pages: map<PageId, Data>) returns (found: bool, f: nat, frame: Frame)
      requires Intact(pages)
      modifies this`frames, this`table, queues.fifo, queues.lru
      ensures found <==> |view.fixes| < |old(frames)|
      ensures !found ==> Intact(pages) && All() == old(All())
      ensures found ==> Intact(WrittenOut(pages, frame)) && WrittenOut(pages, frame).Keys == pages.Keys
      ensures found ==> TakenAway(old(All()), f, frame, All())
      ensures found ==> f in old(frames) && frame.fixes == 0 && f < unused && |frames| == |old(frames)| - 1
    {
      ghost var fifo, lru := queues.fifo.Items(), queues.lru.Items();
      queues.ItemsDistinct();
      QueuedIffRoom(frames, table, pages, fifo, lru, view);
      QueuedKnown(frames, fifo, lru);
      found, f, frame := queues.Evict(frames);
      if found {
        Evicting(frames, table, pages, touched, fifo, lru, unused, view, f, queues.fifo.Items(), queues.lru.Items());
        frames, table := frames - {f}, table - {frame.page};
      }
    }

    /** Fixes a page in a frame from which another page is evicted. */
    method FixMiss(p: PageId, newly: bool) returns (found: bool, f: nat)
      requires Valid() && p in disk && p !in table
      modifies this, queues.fifo, queues.lru
      ensures Valid() && FixesAt(old(view), p) == 0 && disk.Keys == old(disk).Keys && found == CanFix(old(view), p)
      ensures !found ==> view == old(view) && touched == old(touched)
      ensures found ==> f in frames && frames[f].page == p && frames[f].fixes > 0
      ensures found ==> view == FixedOnce(old(view), p, frames[f].data)
      ensures found ==> touched == if newly then old(touched) + {f} else old(touched)
      ensures found && !newly ==> p in old(view).contents && frames[f].data == old(view).contents[p]
      ensures if found then Miss(old(All()), p, newly, f, All()) else All() == old(All())
    {
      NotCached(frames, table, disk, view, p);
      var data;
      found, f, data := ClearFrame();
      if found {
        LoadEmptied(p, f, data, newly, old(All()));
      }
    }

    /** Puts a page into the frame that was emptied for it. */
    method LoadEmptied(p: PageId, f: nat, data: Data, newly: bool, ghost was: Pool)
      requires Intact(disk) && f !in frames && f < unused && p in disk && p !in table && FixesAt(view, p) == 0
      requires |frames| + 1 == size == view.size && Emptied(was, f, All()) && data == was.frames[f].data
      modifies this`frames, this`table, this`touched, this`view
      ensures Valid() && f in frames && frames[f].page == p && frames[f].fixes > 0
      ensures view == FixedOnce(old(view), p, frames[f].data)
      ensures touched == if newly then old(touched) + {f} else old(touched)
      ensures !newly ==> p in old(view).contents && frames[f].data == old(view).contents[p]
      ensures Miss(was, p, newly, f, All())
    {
      ghost var a := All();
      Load(p, f, data, newly);
      FixedFirst(old(view), p, frames[f].data);
      EmptiedAndLoaded(was, f, a, p, newly, All());
    }

    /** Puts a page into a free frame, and reads it in unless it is a new one. */
    method Load(p: PageId, f: nat, data: Data, newly: bool)
      requires Intact(disk) && f !in frames && f < unused && p in disk && p !in table
      modifies this`frames, this`table, this`touched, this`view
      ensures Intact(disk) && f in frames && frames[f].page == p && frames[f].fixes > 0
      ensures |frames| == old(|frames|) + 1 && view.size == old(view).size
      ensures touched == if newly then old(touched) + {f} else old(touched)
      ensures view == SetContents(SetFixes(old(view), p, 1), p, frames[f].data)
      ensures !newly ==> p in old(view).contents && frames[f].data == old(view).contents[p]
      ensures Loaded(old(All()), p, newly, data, f, All())
    {
      NotCached(frames, table, disk, view, p);
      if newly {
        Install(f, Frame(p, data, false, false, false, true, 1), touched + {f});
      } else {
        Install(f, Frame(p, disk[p], false, false, false, true, 1), touched);
      }
    }

    /** Evicts a page and writes it out if it is dirty. */
    method ClearFrame() returns (found: bool, f: nat, data: Data)
      requires Valid()
      modifies this`frames, this`table, this`disk, queues.fifo, queues.lru
      ensures Intact(disk) && disk.Keys == old(disk).Keys && found == (|view.fixes| < size)
      ensures !found ==> frames == old(frames)
      ensures found ==> f in old(frames) && f < unused && frames == old(frames) - {f} && |frames| + 1 == |old(frames)|
      ensures forall p | p in table :: p in old(table)
      ensures !found ==> All() == old(All())
      ensures found ==> Emptied(old(All()), f, All()) && data == old(frames)[f].data
    {
      var frame;
      found, f, frame := EvictFrame(disk);
      if found {
        disk := WrittenOut(disk, frame);
      }
      data := frame.data;
    }

    /** Puts a page into a frame of its own. */
    method Install(f: nat, frame: Frame, ghost marked: set<nat>)
      requires Intact(disk) && f !in frames && f < unused && frame.valid && frame.page in disk && frame.page !in table
      requires frame.fixes == 1 && !frame.fifo && !frame.lru
      requires marked == touched + {f} || (marked == touched && frame.data == disk[frame.page])
      modifies this`frames, this`table, this`touched, this`view
      ensures Intact(disk) && frames == old(frames)[f := frame] && table == old(table)[frame.page := f] && touched == marked
      ensures view == SetContents(SetFixes(old(view), frame.page, 1), frame.page, frame.data)
    {
      Installing(frames, table, disk, touched, queues.fifo.Items(), queues.lru.Items(), unused, view, f, frame, marked);
      frames, table, touched := frames[f := frame], table[frame.page := f], marked;
      view := SetContents(SetFixes(view, frame.page, 1), frame.page, frame.data);
    }

    /** Fixes a page: in the frame that holds it, or in one that is free for it. */
    method FixPage(p: PageId, newly: bool) returns (found: bool, f: nat)
      requires Valid() && p in disk
      modifies this, queues.fifo, queues.lru
      ensures Valid() && disk.Keys == old(disk).Keys && found == CanFix(old(view), p)
      ensures !found ==> view == old(view) && touched == old(touched)
      ensures found ==> f in frames && frames[f].page == p && frames[f].fixes > 0
      ensures found ==> view == FixedOnce(old(view), p, frames[f].data)
      ensures found ==> touched == old(touched) || (newly && touched == old(touched) + {f})
      ensures found && !newly ==> touched == old(touched) && p in old(view).contents && frames[f].data == old(view).contents[p]
      ensures if !found then All() == old(All())
              else if p in old(table) then Hit(old(All()), p, f, All()) else Miss(old(All()), p, newly, f, All())
    {
      if p in table {
        CachedCanFix(frames, table, disk, view, p);
        f := FixHit(p);
        found := true;
      } else {
        found, f := FixMiss(p, newly);
      }
    }

    /** Changes a page in its frame. */
    method Modify(f: nat, data: Data)
      requires Valid() && f in frames && frames[f].fixes > 0
      modifies this`frames, this`touched, this`view
      ensures Valid() && frames == old(frames)[f := old(frames)[f].(data := data)] && touched == old(touched) + {f}
      ensures view == SetContents(old(view), frames[f].page, data)
    {
      var frame := frames[f].(data := data);
      ghost var fifo, lru := queues.fifo.Items(), queues.lru.Items();
      FixedIsValid(frames, table, disk, touched, f);
      KeptQueued(frames, fifo, lru, f, frame);
      Changing(frames, table, disk, touched, fifo, lru, unused, view, f, frame, disk, touched + {f}, fifo, lru);
      SameView(view, frame.page, frame.fixes, frames[f].data);
      frames, touched, view := frames[f := frame], touched + {f}, SetContents(view, frame.page, data);
    }

    /** Gives a fixed page up; who changed it says so. */
    method UnfixPage(f: nat, dirty: bool)
      requires Valid() && f in frames && frames[f].fixes > 0 && (f in touched && frames[f].fixes == 1 ==> dirty)
      modifies this`frames, this`touched, this`view, queues.fifo, queues.lru
      ensures Valid() && f in frames && frames == old(frames)[f := frames[f]] && frames[f].page == old(frames)[f].page
      ensures touched == if dirty then old(touched) - {f} else old(touched)
      ensures FixesAt(old(view), frames[f].page) == old(frames)[f].fixes
      ensures view == SetFixes(old(view), frames[f].page, old(frames)[f].fixes - 1)
      ensures Released(old(Fifo()), old(Lru()), f, GivenUp(old(frames)[f], dirty), frames[f], Fifo(), Lru())
    {
      if dirty {
        SetDirty(f);
      }
      Unfix(f);
    }

    /** Marks a fixed page as changed. */
    method SetDirty(f: nat)
      requires Valid() && f in frames && frames[f].fixes > 0
      modifies this`frames, this`touched
      ensures Valid() && frames == old(frames)[f := old(frames)[f].(dirty := true)] && touched == old(touched) - {f}
    {
      var frame := frames[f].(dirty := true);
      ghost var fifo, lru := queues.fifo.Items(), queues.lru.Items();
      FixedIsValid(frames, table, disk, touched, f);
      KeptQueued(frames, fifo, lru, f, frame);
      Changing(frames, table, disk, touched, fifo, lru, unused, view, f, frame, disk, touched - {f}, fifo, lru);
      SameView(view, frame.page, frame.fixes, frame.data);
      frames, touched := frames[f := frame], touched - {f};
    }

    /** Takes one off the count of a page. */
    method Unfix(f: nat)
      requires Valid() && f in frames && frames[f].fixes > 0 && (f in touched ==> frames[f].fixes > 1)
      modifies this`frames, this`view, queues.fifo, queues.lru
      ensures Valid() && f in frames && frames == old(frames)[f := frames[f]] && frames[f].page == old(frames)[f].page
      ensures FixesAt(old(view), frames[f].page) == old(frames)[f].fixes
      ensures view == SetFixes(old(view), frames[f].page, old(frames)[f].fixes - 1)
      ensures Released(old(Fifo()), old(Lru()), f, GivenUp(old(frames)[f], false), frames[f], Fifo(), Lru())
    {
      ghost var fifo, lru := queues.fifo.Items(), queues.lru.Items();
      FixedIsValid(frames, table, disk, touched, f);
      var frame := Release(f, frames[f].(fixes := frames[f].fixes - 1));
      Changing(frames, table, disk, touched, fifo, lru, unused, view, f, frame, disk, touched, queues.fifo.Items(), queues.lru.Items());
      SameView(SetFixes(view, frame.page, frame.fixes), frame.page, frame.fixes, frame.data);
      frames, view := frames[f := frame], SetFixes(view, frame.page, frame.fixes);
    }

    /** Writes the page of a frame out; the frame is dirty afterwards as the flag says. */
    method WriteOut(f: nat, dirty: bool)
      requires Valid() && f in frames && frames[f].valid
      modifies this`frames, this`disk, this`touched
      ensures Valid() && frames == old(frames)[f := old(frames)[f].(dirty := dirty)] && disk.Keys == old(disk).Keys
      ensures touched == old(touched) - {f} && disk == old(disk)[old(frames)[f].page := old(frames)[f].data]
    {
      var frame := frames[f].(dirty := dirty);
      ghost var fifo, lru := queues.fifo.Items(), queues.lru.Items();
      assert SavedAt(frames, disk, touched, f);
      KeptQueued(frames, fifo, lru, f, frame);
      Changing(frames, table, disk, touched, fifo, lru, unused, view, f, frame, disk[frame.page := frame.data], touched - {f}, fifo, lru);
      ShownFixes(frames, table, disk, view, f);
      SameView(view, frame.page, frame.fixes, frame.data);
      frames, disk, touched := frames[f := frame], disk[frame.page := frame.data], touched - {f};
    }

    /** Writes a page out and gives it up. */
    method FlushAndUnfixPage(f: nat)
      requires Valid() && f in frames && frames[f].fixes > 0
      modifies this, queues.fifo, queues.lru
      ensures Valid() && f in frames && frames == old(frames)[f := frames[f]] && frames[f].page == old(frames)[f].page
      ensures touched == old(touched) - {f} && disk.Keys == old(disk).Keys
      ensures view == SetFixes(old(view), frames[f].page, old(frames)[f].fixes - 1)
      ensures disk == old(disk)[old(frames)[f].page := old(frames)[f].data] && table == old(table)
      ensures Released(old(Fifo()), old(Lru()), f, GivenUp(old(frames)[f], false), frames[f], Fifo(), Lru())
    {
      FixedIsValid(frames, table, disk, touched, f);
      WriteOut(f, frames[f].dirty);
      SameFrames(old(frames), f, frames);
      UnfixPage(f, false);
    }

    /** Writes a page out if it is dirty. */
    method FlushOne(p: PageId)
      requires Valid() && p in table
      modifies this`frames, this`disk, this`touched
      ensures Valid() && disk.Keys == old(disk).Keys && touched <= old(touched) && p in disk && table[p] in old(frames)
      ensures var f, frame := table[p], old(frames)[table[p]];
              if frame.dirty then frames == old(frames)[f := frame.(dirty := false)] && disk == old(disk)[p := frame.data]
              else frames == old(frames) && disk == old(disk)
    {
      assert Leads(frames, table, p) && SavedAt(frames, disk, touched, table[p]);
      if frames[table[p]].dirty {
        WriteOut(table[p], false);
      }
    }

    /** Takes a page off the list of those that may have to be written out. */
    method FlushNext(p: PageId, ghost todo: set<PageId>, ghost before: map<nat, Frame>, ghost pages: map<PageId, Data>)
      requires Valid() && p in table && p in todo
      requires Flushed(before, frames, todo) && OnDisk(before, table, todo, pages, disk)
      modifies this`frames, this`disk, this`touched
      ensures Valid() && disk.Keys == old(disk).Keys && touched <= old(touched)
      ensures Flushed(before, frames, todo - {p}) && OnDisk(before, table, todo - {p}, pages, disk)
    {
      InTable(p);
      FlushStep(before, frames, table, todo, p);
      FlushDiskStep(before, table, todo, pages, disk, p);
      FlushOne(p);
    }

    lemma InTable(p: PageId)
      requires Valid() && p in table
      ensures p in disk && table[p] in frames
    {
      assert Leads(frames, table, p) && SavedAt(frames, disk, touched, table[p]);
    }

    /** Writes all dirty pages out. */
    method FlushDirty()
      requires Valid()
      modifies this`frames, this`disk, this`touched
      ensures Valid() && disk.Keys == old(disk).Keys && touched <= old(touched)
      ensures Flushed(old(frames), frames, {}) && OnDisk(old(frames), table, {}, old(disk), disk)
      ensures forall p | p in view.contents && p in disk && disk[p] != view.contents[p] :: p in table && table[p] in touched
    {
      FlushAll();
      CleanIsSaved(frames, table, disk, touched, view);
    }

    /** Goes through the table. */
    method FlushAll()
      requires Valid()
      modifies this`frames, this`disk, this`touched
      ensures Valid() && disk.Keys == old(disk).Keys && touched <= old(touched)
      ensures Flushed(old(frames), frames, {}) && OnDisk(old(frames), table, {}, old(disk), disk)
    {
      var todo := table.Keys;
      AllListed(frames, table, disk);
      while todo != {}
        invariant todo <= table.Keys && Valid() && disk.Keys == old(disk).Keys && touched <= old(touched)
        invariant Flushed(old(frames), frames, todo) && OnDisk(old(frames), table, todo, old(disk), disk)
        decreases todo
      {
        var p :| p in todo;
        FlushNext(p, todo, old(frames), old(disk));
        todo := todo - {p};
      }
    }

    /** Evicts pages and gives up their frames, as far as they are not fixed. */
    method DecreaseNumPages(diff: nat) returns (change: int, ghost evicted: seq<Frame>)
      requires Valid()
      modifies this, queues.fifo, queues.lru
      ensures Valid() && disk.Keys == old(disk).Keys && touched == old(touched) && change == size - old(size)
      ensures view == old(view).(size := Max(old(size) - diff, |old(view).fixes|))
      ensures Shrunk(old(All()), evicted, All()) && disk == WrittenAll(old(disk), evicted) && change == -|evicted|
    {
      RoomForFixed(frames, table, disk, view);
      var gone;
      ghost var pages;
      gone, pages := EvictMany(diff, disk);
      change, evicted := -|gone|, gone;
      ShrunkAnyDisk(old(All()), gone, All(), pages);
      Settle(gone, pages);
    }

    /** Writes out what was evicted, once the pool is smaller. */
    method Settle(evicted: seq<Frame>, ghost pages: map<PageId, Data>)
      requires Intact(pages) && pages == WrittenAll(disk, evicted) && |frames| == size && |view.fixes| <= size
      modifies this`disk, this`view
      ensures Valid() && disk == pages && view == old(view).(size := size) && All() == old(All()).(disk := pages)
    {
      WriteAll(evicted);
      view := view.(size := size);
      Resized(frames, table, disk, old(view), view);
    }

    /** The frames of `evicted` have been taken out of a pool of `n` frames. */
    ghost predicate Draining(was: Pool, start: map<PageId, Data>, n: nat, evicted: seq<Frame>, pages: map<PageId, Data>)
      reads this, queues, queues.fifo, queues.lru
    {
      Intact(pages) && Drained(was, start, evicted, pages, All()) && size == |frames| == n - |evicted| && |view.fixes| <= size
    }

    /** Takes frames out of the pool, as many as wanted or as there are. */
    method EvictMany(diff: nat, ghost start: map<PageId, Data>) returns (evicted: seq<Frame>, ghost pages: map<PageId, Data>)
      requires start == disk && Intact(start) && size == |frames| && |view.fixes| <= size
      modifies this`frames, this`table, this`size, queues.fifo, queues.lru
      ensures Draining(old(All()), start, old(size), evicted, pages)
      ensures size == Max(old(size) - diff, |view.fixes|)
    {
      evicted, pages := [], start;
      DrainedNone(All(), start);
      while |evicted| < diff
        invariant |evicted| <= diff && Draining(old(All()), start, old(size), evicted, pages)
      {
        var found, frame;
        found, frame, pages := EvictNext(old(All()), start, old(size), evicted, pages);
        if !found {
          break;
        }
        evicted := evicted + [frame];
      }
    }

    /** Takes one more frame out of the pool, after those of `evicted`. */
    method EvictNext(ghost was: Pool, ghost start: map<PageId, Data>, ghost n: nat, ghost evicted: seq<Frame>, ghost pages: map<PageId, Data>)
      returns (found: bool, frame: Frame, ghost pages': map<PageId, Data>)
      requires Draining(was, start, n, evicted, pages)
      modifies this`frames, this`table, this`size, queues.fifo, queues.lru
      ensures found == (|view.fixes| < old(size))
      ensures Draining(was, start, n, if found then evicted + [frame] else evicted, pages')
    {
      ghost var a, f := All(), 0;
      found, f, frame := TakeOut(pages);
      pages' := if found then WrittenOut(pages, frame) else pages;
      if found {
        DrainedNext(was, start, evicted, pages, a, f, frame, All());
      }
    }

    /** Takes one frame out of the pool. */
    method TakeOut(ghost pages: map<PageId, Data>) returns (found: bool, ghost f: nat, frame: Frame)
      requires Intact(pages) && size == |frames|
      modifies this`frames, this`table, this`size, queues.fifo, queues.lru
      ensures found == (|view.fixes| < old(size)) && size == |frames| == if found then old(size) - 1 else old(size)
      ensures Intact(if found then WrittenOut(pages, frame) else pages)
      ensures found ==> WrittenOut(pages, frame).Keys == pages.Keys
      ensures if found then TakenAway(old(All()), f, frame, All()) else All() == old(All())
    {
      var g;
      found, g, frame := EvictFrame(pages);
      f := g;
      if found {
        size := size - 1;
      }
    }

    /** Writes out what was evicted. */
    method WriteAll(evicted: seq<Frame>)
      modifies this`disk
      ensures disk == WrittenAll(old(disk), evicted)
    {
      assert evicted[..0] == [];
      for i := 0 to |evicted|
        invariant disk == WrittenAll(old(disk), evicted[..i])
      {
        assert evicted[..i + 1] == evicted[..i] + [evicted[i]];
        WrittenNext(old(disk), evicted[..i], evicted[i]);
        disk := WrittenOut(disk, evicted[i]);
      }
      assert evicted[..|evicted|] == evicted;
    }

    /** Changes the pool size as far as fixed pages let it. */
    method AdjustNumPages(n: nat) returns (change: int)
      requires Valid()
      modifies this, queues.fifo, queues.lru
      ensures Valid() && disk.Keys == old(disk).Keys && touched == old(touched) && change == size - old(size)
      ensures view == old(view).(size := Max(n, |old(view).fixes|))
    {
      RoomForFixed(frames, table, disk, view);
      if n > size {
        change := IncreaseNumPages(n - size);
      } else if n < size {
        ghost var evicted;
        change, evicted := DecreaseNumPages(size - n);
      } else {
        change := 0;
      }
    }

    /** Does one operation; `changed` has the frames that the client changed and still has fixed. */
    method Step(op: Op, changed: set<nat>) returns (read: seq<Data>, changed': set<nat>)
      requires Valid() && touched <= changed
      modifies this, queues.fifo, queues.lru
      ensures Valid() && view == Apply(old(view), op) && touched <= changed' && read == ReadBy(old(view), op)
      ensures op.Flush? ==> Flushed(old(frames), frames, {}) && OnDisk(old(frames), table, {}, old(disk), disk)
    {
      read, changed' := [], changed;
      if op.Flush? {
        FlushDirty();
      } else if op.Resize? {
        var change := AdjustNumPages(op.n);
      } else {
        FixedFrame(frames, table, disk, view, op.p);
        if op.Fix? {
          read := StepFix(op.p);
        } else {
          changed' := StepFixed(op, changed);
        }
      }
    }

    method StepFix(p: PageId) returns (read: seq<Data>)
      requires Valid()
      modifies this, queues.fifo, queues.lru
      ensures Valid() && view == Apply(old(view), Fix(p)) && touched == old(touched) && read == ReadBy(old(view), Fix(p))
    {
      FixedFrame(frames, table, disk, view, p);
      if p !in disk {
        return [];
      }
      var found, f := FixPage(p, false);
      if !found {
        return [];
      }
      SameView(SetFixes(old(view), p, FixesAt(old(view), p) + 1), p, 0, frames[f].data);
      return [frames[f].data];
    }

    /** Does an operation on a page that has to be fixed for it. */
    method StepFixed(op: Op, changed: set<nat>) returns (changed': set<nat>)
      requires Valid() && touched <= changed && (op.Write? || op.Unfix? || op.FlushUnfix?)
      modifies this, queues.fifo, queues.lru
      ensures Valid() && view == Apply(old(view), op) && touched <= changed'
    {
      changed' := changed;
      FixedFrame(frames, table, disk, view, op.p);
      if op.p !in table || table[op.p] !in frames || frames[table[op.p]].fixes == 0 {
        assert ShowsFixes(frames, table, view, op.p);
        return;
      }
      assert ShowsFixes(frames, table, view, op.p) && Leads(frames, table, op.p);
      var f := table[op.p];
      if op.Write? {
        Modify(f, op.data);
        changed' := changed + {f};
      } else if op.Unfix? {
        UnfixPage(f, f in changed);
      } else {
        FlushAndUnfixPage(f);
      }
    }

    /** Over every run of operations a client sees what it would see without frames and eviction. */
    method Run(ops: seq<Op>) returns (seen: seq<seq<Data>>)
      requires Valid() && touched == {}
      modifies this, queues.fifo, queues.lru
      ensures Valid() && view == ApplyAll(old(view), ops) && seen == ReadByAll(old(view), ops)
    {
      seen := [];
      var changed: set<nat> := {};
      for i := 0 to |ops|
        invariant Valid() && touched <= changed
        invariant view == ApplyAll(old(view), ops[..i]) && seen == ReadByAll(old(view), ops[..i])
      {
        NextOp(old(view), ops, i);
        var read;
        read, changed := Step(ops[i], changed);
        seen := seen + [read];
      }
      assert ops[..|ops|] == ops;
    }
  }

  // ------------------------------------------------------------ runs

  /** What a client does; it says of a page that it gives up whether it changed it. */
  datatype Op = Fix(p: PageId) | Write(p: PageId, data: Data) | Unfix(p: PageId) | FlushUnfix(p: PageId) | Flush | Resize(n: nat)

  /** What an operation does to the view; what cannot be done is not done. */
  function Apply(v: View, op: Op): View {
    match op
    case Fix(p) => if p in v.contents && CanFix(v, p) then SetFixes(v, p, FixesAt(v, p) + 1) else v
    case Write(p, data) => if FixesAt(v, p) > 0 then SetContents(v, p, data) else v
    case Unfix(p) => if FixesAt(v, p) > 0 then SetFixes(v, p, FixesAt(v, p) - 1) else v
    case FlushUnfix(p) => if FixesAt(v, p) > 0 then SetFixes(v, p, FixesAt(v, p) - 1) else v
    case Flush => v
    case Resize(n) => v.(size := if n < |v.fixes| then |v.fixes| else n)
  }

  function ApplyAll(v: View, ops: seq<Op>): View {
    if ops == [] then v else Apply(ApplyAll(v, ops[..|ops| - 1]), ops[|ops| - 1])
  }

  /** What the operation reads, if it fixes a page: its contents in the view. */
  function ReadBy(v: View, op: Op): seq<Data> {
    if op.Fix? && op.p in v.contents && CanFix(v, op.p) then [v.contents[op.p]] else []
  }

  function ReadByAll(v: View, ops: seq<Op>): seq<seq<Data>> {
    if ops == [] then []
    else var rest := ops[..|ops| - 1]; ReadByAll(v, rest) + [ReadBy(ApplyAll(v, rest), ops[|ops| - 1])]
  }

  lemma {:induction false} NextOp(v: View, ops: seq<Op>, i: nat)
    requires i < |ops|
    ensures ApplyAll(v, ops[..i + 1]) == Apply(ApplyAll(v, ops[..i]), ops[i])
    ensures ReadByAll(v, ops[..i + 1]) == ReadByAll(v, ops[..i]) + [ReadBy(ApplyAll(v, ops[..i]), ops[i])]
  {
    assert ops[..i + 1][..i] == ops[..i];
  }

  /** The data last written to a page in a run, or what it had before. */
  function LastWritten(v: View, ops: seq<Op>, p: PageId): Data
    requires p in v.contents
  {
    if ops == [] then v.contents[p]
    else
      var rest, op := ops[..|ops| - 1], ops[|ops| - 1];
      if op.Write? && op.p == p && FixesAt(ApplyAll(v, rest), p) > 0 then op.data else LastWritten(v, rest, p)
  }

  /** After every run a page has what was last written to it, and fixing it reads that. */
  lemma {:induction false} FixReadsLast(v: View, ops: seq<Op>, p: PageId)
    requires p in v.contents
    ensures p in ApplyAll(v, ops).contents && ApplyAll(v, ops).contents[p] == LastWritten(v, ops, p)
    ensures CanFix(ApplyAll(v, ops), p) ==> ReadBy(ApplyAll(v, ops), Fix(p)) == [LastWritten(v, ops, p)]
  {
    if ops != [] {
      FixReadsLast(v, ops[..|ops| - 1], p);
    }
  }

  /** A page that is fixed is in a frame that is fixed as often. */
  lemma FixedFrame(frames: map<nat, Frame>, table: map<PageId, nat>, disk: map<PageId, Data>, v: View, p: PageId)
    requires Mapped(frames, table) && Shows(frames, table, disk, v)
    ensures FixesAt(v, p) > 0 ==> p in table && table[p] in frames && frames[table[p]].fixes == FixesAt(v, p) && frames[table[p]].page == p
    ensures p in v.fixes <==> FixesAt(v, p) > 0
    ensures disk.Keys == v.contents.Keys
  {
    assert ShowsFixes(frames, table, v, p);
    assert p in table ==> Leads(frames, table, p);
  }

  function Max(a: int, b: int): int {
    if a < b then b else a
  }

  lemma RoomForFixed(frames: map<nat, Frame>, table: map<PageId, nat>, disk: map<PageId, Data>, v: View)
    requires Mapped(frames, table) && Shows(frames, table, disk, v)
    ensures |v.fixes| <= |frames|
  {
    FreeIffRoom(frames, table, disk, v);
  }

  /** The disk after frames were written out in order, where that was needed. */
  function WrittenAll(disk: map<PageId, Data>, evicted: seq<Frame>): map<PageId, Data> {
    if evicted == [] then disk else WrittenOut(WrittenAll(disk, evicted[..|evicted| - 1]), evicted[|evicted| - 1])
  }

  lemma WrittenNext(disk: map<PageId, Data>, evicted: seq<Frame>, frame: Frame)
    ensures WrittenAll(disk, evicted + [frame]) == WrittenOut(WrittenAll(disk, evicted), frame)
  {
    assert (evicted + [frame])[..|evicted|] == evicted;
  }

  /** The frames of pages that are not on the list any more are not dirty, and all else about the frames is as before. */
  ghost predicate Flushed(before: map<nat, Frame>, frames: map<nat, Frame>, todo: set<PageId>) {
    && frames.Keys == before.Keys
    && forall f | f in frames :: frames[f] == if before[f].page in todo then before[f] else before[f].(dirty := false)
  }

  /** The disk has the pages that were dirty and are not on the list any more, and else what it had. */
  ghost predicate OnDisk(before: map<nat, Frame>, table: map<PageId, nat>, todo: set<PageId>, disk: map<PageId, Data>, disk': map<PageId, Data>) {
    && disk'.Keys == disk.Keys
    && forall p {:trigger OnDiskAt(before, table, todo, disk, disk', p)} | p in disk' :: OnDiskAt(before, table, todo, disk, disk', p)
  }

  ghost predicate OnDiskAt(before: map<nat, Frame>, table: map<PageId, nat>, todo: set<PageId>, disk: map<PageId, Data>, disk': map<PageId, Data>, p: PageId)
    requires p in disk'
  {
    if p in table && p !in todo && table[p] in before && before[table[p]].dirty then disk'[p] == before[table[p]].data
    else p in disk && disk'[p] == disk[p]
  }

  lemma AllListed(frames: map<nat, Frame>, table: map<PageId, nat>, disk: map<PageId, Data>)
    requires Mapped(frames, table)
    ensures Flushed(frames, frames, table.Keys) && OnDisk(frames, table, table.Keys, disk, disk)
  {
    forall f | f in frames && frames[f].page !in table
      ensures !frames[f].dirty
    {
      assert Led(frames, table, f);
    }
  }

  lemma FlushStep(before: map<nat, Frame>, frames: map<nat, Frame>, table: map<PageId, nat>, todo: set<PageId>, p: PageId)
    requires Flushed(before, frames, todo) && Mapped(frames, table) && p in table && p in todo
    ensures Leads(frames, table, p) && before[table[p]] == frames[table[p]]
    ensures var f := table[p];
            if frames[f].dirty then Flushed(before, frames[f := frames[f].(dirty := false)], todo - {p})
            else Flushed(before, frames, todo - {p})
  {
    assert Leads(frames, table, p) && Led(frames, table, table[p]);
    forall g | g in frames && g != table[p]
      ensures before[g].page != p
    {
      assert Led(frames, table, g);
    }
  }

  lemma FlushDiskStep(before: map<nat, Frame>, table: map<PageId, nat>, todo: set<PageId>, disk: map<PageId, Data>, disk': map<PageId, Data>, p: PageId)
    requires OnDisk(before, table, todo, disk, disk') && p in table && table[p] in before && p in todo && p in disk'
    ensures OnDisk(before, table, todo - {p}, disk, if before[table[p]].dirty then disk'[p := before[table[p]].data] else disk')
  {
    var disk'' := if before[table[p]].dirty then disk'[p := before[table[p]].data] else disk';
    forall q | q in disk''
      ensures OnDiskAt(before, table, todo - {p}, disk, disk'', q)
    {
      assert OnDiskAt(before, table, todo, disk, disk', q);
    }
  }

  /** Without dirty pages the disk has what clients see, but for what was touched. */
  lemma CleanIsSaved(frames: map<nat, Frame>, table: map<PageId, nat>, disk: map<PageId, Data>, touched: set<nat>, v: View)
    requires Mapped(frames, table) && Saved(frames, disk, touched) && Shows(frames, table, disk, v)
    requires forall f | f in frames :: !frames[f].dirty
    ensures forall p | p in v.contents && p in disk && disk[p] != v.contents[p] :: p in table && table[p] in touched
  {
    forall p | p in v.contents && p in disk && disk[p] != v.contents[p]
      ensures p in table && table[p] in touched
    {
      assert ShowsData(frames, table, disk, v, p);
      assert p in table ==> Leads(frames, table, p) && SavedAt(frames, disk, touched, table[p]);
    }
  }

  lemma ShownFixes(frames: map<nat, Frame>, table: map<PageId, nat>, disk: map<PageId, Data>, v: View, f: nat)
    requires Mapped(frames, table) && Shows(frames, table, disk, v) && f in frames && frames[f].valid
    ensures FixesAt(v, frames[f].page) == frames[f].fixes && (frames[f].page in v.fixes ==> frames[f].fixes > 0)
  {
    assert Led(frames, table, f) && ShowsFixes(frames, table, v, frames[f].page);
  }

  /** A frame whose count and flags stay stays queued as it is. */
  lemma KeptQueued(frames: map<nat, Frame>, fifo: seq<nat>, lru: seq<nat>, f: nat, frame: Frame)
    requires Queued(frames, fifo, lru) && f in frames
    requires frame.fixes == frames[f].fixes && frame.fifo == frames[f].fifo && frame.lru == frames[f].lru
    ensures Queued(frames[f := frame], fifo, lru)
  {
    assert QueuedAt(frames, fifo, lru, f);
    ChangeQueued(frames, fifo, lru, f, frame, fifo, lru);
  }

  lemma Resized(frames: map<nat, Frame>, table: map<PageId, nat>, disk: map<PageId, Data>, v: View, v': View)
    requires Shows(frames, table, disk, v) && v' == v.(size := v'.size)
    ensures Shows(frames, table, disk, v')
  {
    forall p
      ensures ShowsFixes(frames, table, v', p) && (p in disk ==> ShowsData(frames, table, disk, v', p))
    {
      assert ShowsFixes(frames, table, v, p) && (p in disk ==> ShowsData(frames, table, disk, v, p));
    }
  }
}
