// Frames that hold pages, the two queues of those that may be evicted, and what holds of them.
module BufferPool {
  import Queue = HashQueue

  datatype PageId = Invalid | Page(n: nat)

  type Data = seq<int>

  /** A frame; it has been in a queue since it got its page as `fifo` and `lru` say. */
  datatype Frame = Frame(page: PageId, data: Data, dirty: bool, fifo: bool, lru: bool, valid: bool, fixes: nat)

  function NewFrame(): Frame {
    Frame(Invalid, [], false, false, false, false, 0)
  }

  // ------------------------------------------------------------ what always holds

  /** The pages lead to the frames that hold them, and back. */
  ghost predicate Mapped(frames: map<nat, Frame>, table: map<PageId, nat>) {
    && (forall p {:trigger Leads(frames, table, p)} | p in table :: Leads(frames, table, p))
    && (forall f {:trigger Led(frames, table, f)} | f in frames :: Led(frames, table, f))
  }

  ghost predicate Leads(frames: map<nat, Frame>, table: map<PageId, nat>, p: PageId)
    requires p in table
  {
    table[p] in frames && frames[table[p]].valid && frames[table[p]].page == p
  }

  ghost predicate Led(frames: map<nat, Frame>, table: map<PageId, nat>, f: nat)
    requires f in frames
  {
    if frames[f].valid then frames[f].page != Invalid && frames[f].page in table && table[frames[f].page] == f
    else frames[f].page == Invalid && !frames[f].dirty && frames[f].fixes == 0
  }

  /** What is neither dirty nor touched by who has it fixed is as on disk. */
  ghost predicate Saved(frames: map<nat, Frame>, disk: map<PageId, Data>, touched: set<nat>) {
    && (forall f {:trigger SavedAt(frames, disk, touched, f)} | f in frames :: SavedAt(frames, disk, touched, f))
    && (forall f {:trigger TouchedAt(frames, touched, f)} :: TouchedAt(frames, touched, f))
  }

  ghost predicate TouchedAt(frames: map<nat, Frame>, touched: set<nat>, f: nat) {
    f in touched ==> f in frames && frames[f].fixes > 0
  }

  ghost predicate SavedAt(frames: map<nat, Frame>, disk: map<PageId, Data>, touched: set<nat>, f: nat)
    requires f in frames
  {
    && (frames[f].valid ==> frames[f].page in disk)
    && (frames[f].valid && !frames[f].dirty && f !in touched ==> frames[f].data == disk[frames[f].page])
  }

  /** A frame is in exactly one of the queues if it is not fixed, and in none otherwise. */
  ghost predicate Queued(frames: map<nat, Frame>, fifo: seq<nat>, lru: seq<nat>) {
    && (forall f {:trigger QueuedAt(frames, fifo, lru, f)} | f in frames :: QueuedAt(frames, fifo, lru, f))
    && (forall f {:trigger KnownAt(frames, fifo, lru, f)} :: KnownAt(frames, fifo, lru, f))
  }

  ghost predicate KnownAt(frames: map<nat, Frame>, fifo: seq<nat>, lru: seq<nat>, f: nat) {
    f in fifo || f in lru ==> f in frames
  }

  ghost predicate QueuedAt(frames: map<nat, Frame>, fifo: seq<nat>, lru: seq<nat>, f: nat)
    requires f in frames
  {
    && (f in fifo <==> frames[f].fixes == 0 && frames[f].fifo && !frames[f].lru)
    && (f in lru <==> frames[f].fixes == 0 && frames[f].lru)
    && (frames[f].fixes == 0 ==> frames[f].fifo)
    && (frames[f].lru ==> frames[f].fifo)
  }

  // ------------------------------------------------------------ what a client sees

  /** What clients see: the contents of all pages, how often each is fixed, and the pool size. */
  datatype View = View(contents: map<PageId, Data>, fixes: map<PageId, nat>, size: nat)

  function FixesAt(v: View, p: PageId): nat {
    if p in v.fixes then v.fixes[p] else 0
  }

  /** A page can be fixed if it is fixed already or there is a frame left for it. */
  predicate CanFix(v: View, p: PageId) {
    p in v.fixes || |v.fixes| < v.size
  }

  function SetFixes(v: View, p: PageId, n: nat): View {
    v.(fixes := if n > 0 then v.fixes[p := n] else v.fixes - {p})
  }

  function SetContents(v: View, p: PageId, data: Data): View {
    v.(contents := v.contents[p := data])
  }

  /** A page is read from its frame, or else from disk; it is fixed as often as its frame. */
  ghost predicate Shows(frames: map<nat, Frame>, table: map<PageId, nat>, disk: map<PageId, Data>, v: View) {
    && v.contents.Keys == disk.Keys
    && (forall p {:trigger ShowsData(frames, table, disk, v, p)} | p in disk :: ShowsData(frames, table, disk, v, p))
    && (forall p {:trigger ShowsFixes(frames, table, v, p)} :: ShowsFixes(frames, table, v, p))
  }

  ghost predicate ShowsData(frames: map<nat, Frame>, table: map<PageId, nat>, disk: map<PageId, Data>, v: View, p: PageId)
    requires p in disk
  {
    p in v.contents && v.contents[p] == if p in table && table[p] in frames then frames[table[p]].data else disk[p]
  }

  ghost predicate ShowsFixes(frames: map<nat, Frame>, table: map<PageId, nat>, v: View, p: PageId) {
    && FixesAt(v, p) == (if p in table && table[p] in frames then frames[table[p]].fixes else 0)
    && (p in v.fixes ==> v.fixes[p] > 0)
  }

  // ------------------------------------------------------------ steps

  /** The disk after the frame was written out, if that was needed. */
  function WrittenOut(disk: map<PageId, Data>, frame: Frame): map<PageId, Data> {
    if frame.dirty then disk[frame.page := frame.data] else disk
  }

  /** The queue has lost the frame, if it had it. */
  ghost predicate Without(s: seq<nat>, f: nat, s': seq<nat>) {
    forall g :: g in s' <==> g in s && g != f
  }

  lemma EvictMapped(frames: map<nat, Frame>, table: map<PageId, nat>, f: nat)
    requires Mapped(frames, table) && f in frames
    ensures Mapped(frames - {f}, table - {frames[f].page})
    ensures forall p | p in table && p != frames[f].page :: table[p] in frames && table[p] != f
    ensures frames[f].page in table ==> table[frames[f].page] == f
  {
    var frames', table' := frames - {f}, table - {frames[f].page};
    assert Led(frames, table, f);
    forall p | p in table
      ensures if p == frames[f].page then table[p] == f else table[p] in frames'
    {
      assert Leads(frames, table, p) && Led(frames, table, table[p]);
    }
    forall p | p in table'
      ensures Leads(frames', table', p)
    {
      assert Leads(frames, table, p);
    }
    forall g | g in frames'
      ensures Led(frames', table', g)
    {
      assert Led(frames, table, g);
    }
  }

  lemma EvictSaved(frames: map<nat, Frame>, table: map<PageId, nat>, disk: map<PageId, Data>, touched: set<nat>, f: nat)
    requires Mapped(frames, table) && Saved(frames, disk, touched) && f in frames && frames[f].fixes == 0
    ensures Saved(frames - {f}, WrittenOut(disk, frames[f]), touched) && WrittenOut(disk, frames[f]).Keys == disk.Keys
    ensures frames[f].valid ==> frames[f].page in disk && WrittenOut(disk, frames[f])[frames[f].page] == frames[f].data
  {
    var frames', disk' := frames - {f}, WrittenOut(disk, frames[f]);
    assert TouchedAt(frames, touched, f);
    assert Led(frames, table, f) && SavedAt(frames, disk, touched, f);
    forall g | g in frames'
      ensures SavedAt(frames', disk', touched, g)
    {
      assert SavedAt(frames, disk, touched, g) && Led(frames, table, g);
    }
    forall g
      ensures TouchedAt(frames', touched, g)
    {
      assert TouchedAt(frames, touched, g);
    }
  }

  lemma EvictQueued(frames: map<nat, Frame>, fifo: seq<nat>, lru: seq<nat>, f: nat, fifo': seq<nat>, lru': seq<nat>)
    requires Queued(frames, fifo, lru) && Without(fifo, f, fifo') && Without(lru, f, lru')
    ensures Queued(frames - {f}, fifo', lru')
  {
    var frames' := frames - {f};
    forall g | g in frames'
      ensures QueuedAt(frames', fifo', lru', g)
    {
      assert QueuedAt(frames, fifo, lru, g);
    }
    forall g
      ensures KnownAt(frames', fifo', lru', g)
    {
      assert KnownAt(frames, fifo, lru, g);
    }
  }

  /** Evicting a frame that is not fixed changes nothing that a client sees. */
  lemma EvictShows(frames: map<nat, Frame>, table: map<PageId, nat>, disk: map<PageId, Data>, touched: set<nat>, f: nat, v: View)
    requires Mapped(frames, table) && Saved(frames, disk, touched) && f in frames && frames[f].fixes == 0
    requires Shows(frames, table, disk, v)
    ensures Shows(frames - {f}, table - {frames[f].page}, WrittenOut(disk, frames[f]), v)
  {
    var frames', table', disk' := frames - {f}, table - {frames[f].page}, WrittenOut(disk, frames[f]);
    EvictMapped(frames, table, f);
    EvictSaved(frames, table, disk, touched, f);
    assert Led(frames, table, f);
    forall p | p in disk'
      ensures ShowsData(frames', table', disk', v, p)
    {
      assert ShowsData(frames, table, disk, v, p) && (p in table ==> Leads(frames, table, p));
    }
    forall p
      ensures ShowsFixes(frames', table', v, p)
    {
      assert ShowsFixes(frames, table, v, p);
    }
  }

  /** A frame that holds a page now; it was free, and the page was in no other. */
  lemma InstallMapped(frames: map<nat, Frame>, table: map<PageId, nat>, f: nat, frame: Frame)
    requires Mapped(frames, table) && f !in frames && frame.valid && frame.page != Invalid && frame.page !in table
    ensures Mapped(frames[f := frame], table[frame.page := f])
  {
    var frames', table' := frames[f := frame], table[frame.page := f];
    forall p | p in table'
      ensures Leads(frames', table', p)
    {
      if p != frame.page {
        assert Leads(frames, table, p);
      }
    }
    forall g | g in frames'
      ensures Led(frames', table', g)
    {
      if g != f {
        assert Led(frames, table, g);
      }
    }
  }

  lemma InstallSaved(frames: map<nat, Frame>, disk: map<PageId, Data>, touched: set<nat>, f: nat, frame: Frame, touched': set<nat>)
    requires Saved(frames, disk, touched) && f !in frames && frame.page in disk && frame.fixes > 0
    requires touched' == touched || touched' == touched + {f}
    requires f !in touched' ==> frame.data == disk[frame.page]
    ensures Saved(frames[f := frame], disk, touched')
  {
    assert TouchedAt(frames, touched, f);
    var frames' := frames[f := frame];
    forall g | g in frames'
      ensures SavedAt(frames', disk, touched', g)
    {
      if g != f {
        assert SavedAt(frames, disk, touched, g);
      }
    }
    forall g
      ensures TouchedAt(frames', touched', g)
    {
      assert TouchedAt(frames, touched, g);
    }
  }

  lemma InstallQueued(frames: map<nat, Frame>, fifo: seq<nat>, lru: seq<nat>, f: nat, frame: Frame)
    requires Queued(frames, fifo, lru) && f !in frames && frame.fixes > 0 && (frame.lru ==> frame.fifo)
    ensures Queued(frames[f := frame], fifo, lru)
  {
    assert KnownAt(frames, fifo, lru, f);
    var frames' := frames[f := frame];
    forall g | g in frames'
      ensures QueuedAt(frames', fifo, lru, g)
    {
      if g != f {
        assert QueuedAt(frames, fifo, lru, g);
      }
    }
    forall g
      ensures KnownAt(frames', fifo, lru, g)
    {
      assert KnownAt(frames, fifo, lru, g);
    }
  }

  lemma InstallShows(frames: map<nat, Frame>, table: map<PageId, nat>, disk: map<PageId, Data>, f: nat, frame: Frame, v: View)
    requires Mapped(frames, table) && f !in frames && frame.page !in table && frame.page in disk && frame.fixes == 1
    requires Shows(frames, table, disk, v)
    ensures Shows(frames[f := frame], table[frame.page := f], disk, SetContents(SetFixes(v, frame.page, 1), frame.page, frame.data))
    ensures FixesAt(v, frame.page) == 0 && frame.page in v.contents && v.contents[frame.page] == disk[frame.page]
  {
    var frames', table', v' := frames[f := frame], table[frame.page := f], SetContents(SetFixes(v, frame.page, 1), frame.page, frame.data);
    assert ShowsData(frames, table, disk, v, frame.page) && ShowsFixes(frames, table, v, frame.page);
    forall p
      ensures ShowsFixes(frames', table', v', p) && (p in disk ==> ShowsData(frames', table', disk, v', p))
    {
      assert ShowsFixes(frames, table, v, p) && (p in disk ==> ShowsData(frames, table, disk, v, p));
      assert p in table ==> Leads(frames, table, p);
    }
  }

  /** A frame whose page stays. */
  lemma ChangeMapped(frames: map<nat, Frame>, table: map<PageId, nat>, f: nat, frame: Frame)
    requires Mapped(frames, table) && f in frames && frames[f].valid && frame.valid && frame.page == frames[f].page
    ensures Mapped(frames[f := frame], table)
  {
    var frames' := frames[f := frame];
    assert Led(frames, table, f);
    forall p | p in table
      ensures Leads(frames', table, p)
    {
      assert Leads(frames, table, p);
    }
    forall g | g in frames'
      ensures Led(frames', table, g)
    {
      assert Led(frames, table, g);
    }
  }

  lemma ChangeShows(frames: map<nat, Frame>, table: map<PageId, nat>, disk: map<PageId, Data>, f: nat, frame: Frame, disk': map<PageId, Data>,
                    v: View)
    requires Mapped(frames, table) && f in frames && frames[f].valid && frame.valid && frame.page == frames[f].page
    requires frame.page in disk && (disk' == disk || disk' == disk[frame.page := frame.data]) && Shows(frames, table, disk, v)
    ensures Shows(frames[f := frame], table, disk', SetContents(SetFixes(v, frame.page, frame.fixes), frame.page, frame.data))
    ensures FixesAt(v, frame.page) == frames[f].fixes && frame.page in v.contents && v.contents[frame.page] == frames[f].data
  {
    var frames', v' := frames[f := frame], SetContents(SetFixes(v, frame.page, frame.fixes), frame.page, frame.data);
    assert Led(frames, table, f) && ShowsData(frames, table, disk, v, frame.page) && ShowsFixes(frames, table, v, frame.page);
    forall p
      ensures ShowsFixes(frames', table, v', p) && (p in disk' ==> ShowsData(frames', table, disk', v', p))
    {
      assert ShowsFixes(frames, table, v, p) && (p in disk ==> ShowsData(frames, table, disk, v, p));
      assert p in table ==> Leads(frames, table, p);
    }
  }

  /** A client sees nothing of a change that keeps data and fixes. */
  lemma SameView(v: View, p: PageId, n: nat, data: Data)
    requires p in v.contents && v.contents[p] == data
    ensures SetContents(v, p, data) == v
    ensures FixesAt(v, p) == n && (p in v.fixes ==> n > 0) ==> SetFixes(v, p, n) == v
  {
    assert v.contents[p := data] == v.contents;
    if FixesAt(v, p) == n && (p in v.fixes ==> n > 0) {
      assert SetFixes(v, p, n).fixes == v.fixes;
    }
  }

  lemma ChangeSaved(frames: map<nat, Frame>, table: map<PageId, nat>, disk: map<PageId, Data>, touched: set<nat>,
                    f: nat, frame: Frame, disk': map<PageId, Data>, touched': set<nat>)
    requires Mapped(frames, table) && Saved(frames, disk, touched) && f in frames && frames[f].valid && frame.valid && frame.page == frames[f].page
    requires disk' == disk || disk' == disk[frame.page := frame.data]
    requires frame.dirty || f in touched' || (frame.page in disk' && frame.data == disk'[frame.page])
    requires (forall g :: g != f ==> (g in touched' <==> g in touched)) && (f in touched' ==> frame.fixes > 0)
    ensures Saved(frames[f := frame], disk', touched')
  {
    var frames' := frames[f := frame];
    forall g | g in frames'
      ensures SavedAt(frames', disk', touched', g)
    {
      assert SavedAt(frames, disk, touched, g);
      assert SavedAt(frames, disk, touched, f);
      if g != f {
        assert Led(frames, table, g) && Led(frames, table, f);
      }
    }
    forall g
      ensures TouchedAt(frames', touched', g)
    {
      assert TouchedAt(frames, touched, g);
    }
  }

  /** A frame that stays fixed, gets fixed or is fixed no more, and is queued accordingly. */
  lemma ChangeQueued(frames: map<nat, Frame>, fifo: seq<nat>, lru: seq<nat>, f: nat, frame: Frame, fifo': seq<nat>, lru': seq<nat>)
    requires Queued(frames, fifo, lru) && f in frames
    requires forall g :: g != f ==> (g in fifo' <==> g in fifo) && (g in lru' <==> g in lru)
    requires f in fifo' <==> frame.fixes == 0 && frame.fifo && !frame.lru
    requires f in lru' <==> frame.fixes == 0 && frame.lru
    requires (frame.fixes == 0 ==> frame.fifo) && (frame.lru ==> frame.fifo)
    ensures Queued(frames[f := frame], fifo', lru')
  {
    var frames' := frames[f := frame];
    forall g | g in frames'
      ensures QueuedAt(frames', fifo', lru', g)
    {
      assert QueuedAt(frames, fifo, lru, g);
    }
    forall g
      ensures KnownAt(frames', fifo', lru', g)
    {
      assert KnownAt(frames, fifo, lru, g);
    }
  }

  /** A new, empty frame. */
  lemma GrowSteps(frames: map<nat, Frame>, table: map<PageId, nat>, disk: map<PageId, Data>, touched: set<nat>,
                  fifo: seq<nat>, lru: seq<nat>, f: nat)
    requires Mapped(frames, table) && Saved(frames, disk, touched) && Queued(frames, fifo, lru) && f !in frames
    ensures var frames' := frames[f := NewFrame().(fifo := true)];
            Mapped(frames', table) && Saved(frames', disk, touched) && Queued(frames', fifo + [f], lru)
  {
    assert KnownAt(frames, fifo, lru, f) && TouchedAt(frames, touched, f);
    var frames' := frames[f := NewFrame().(fifo := true)];
    forall p | p in table
      ensures Leads(frames', table, p)
    {
      assert Leads(frames, table, p);
    }
    forall g | g in frames'
      ensures Led(frames', table, g) && SavedAt(frames', disk, touched, g) && QueuedAt(frames', fifo + [f], lru, g)
    {
      if g != f {
        assert Led(frames, table, g) && SavedAt(frames, disk, touched, g) && QueuedAt(frames, fifo, lru, g);
      }
    }
    forall g
      ensures TouchedAt(frames', touched, g)
    {
      assert TouchedAt(frames, touched, g);
    }
    forall g
      ensures KnownAt(frames', fifo + [f], lru, g)
    {
      assert KnownAt(frames, fifo, lru, g);
    }
  }

  lemma GrowShows(frames: map<nat, Frame>, table: map<PageId, nat>, disk: map<PageId, Data>, f: nat, frame: Frame, v: View)
    requires Mapped(frames, table) && f !in frames && Shows(frames, table, disk, v)
    ensures Shows(frames[f := frame], table, disk, v)
  {
    var frames' := frames[f := frame];
    forall p
      ensures ShowsFixes(frames', table, v, p) && (p in disk ==> ShowsData(frames', table, disk, v, p))
    {
      assert ShowsFixes(frames, table, v, p) && (p in disk ==> ShowsData(frames, table, disk, v, p));
      assert p in table ==> Leads(frames, table, p);
    }
  }

  // ------------------------------------------------------------ how many frames are fixed

  /** There is a frame that is not fixed exactly if fewer pages are fixed than there are frames. */
  lemma FreeIffRoom(frames: map<nat, Frame>, table: map<PageId, nat>, disk: map<PageId, Data>, v: View)
    requires Mapped(frames, table) && Shows(frames, table, disk, v)
    ensures |v.fixes| <= |frames| && ((exists f :: f in frames && frames[f].fixes == 0) <==> |v.fixes| < |frames|)
  {
    var pages := v.fixes.Keys;
    var fixed := set f | f in frames && frames[f].fixes > 0;
    forall p | p in pages
      ensures p in table && table[p] in fixed
    {
      assert ShowsFixes(frames, table, v, p);
    }
    forall f | f in fixed
      ensures Reached(pages, table, f)
    {
      assert Led(frames, table, f) && ShowsFixes(frames, table, v, frames[f].page);
      assert frames[f].page in pages;
    }
    forall p, q | p in pages && q in pages && table[p] == table[q]
      ensures p == q
    {
      assert Leads(frames, table, p) && Leads(frames, table, q);
    }
    SameSize(pages, fixed, table);
    assert |v.fixes| == |pages|;
    Subset(fixed, frames.Keys);
    assert |frames.Keys| == |frames|;
    if f :| f in frames && frames[f].fixes == 0 {
      assert f in frames.Keys && f !in fixed;
    }
    if |fixed| < |frames.Keys| {
      var f :| f in frames.Keys && f !in fixed;
      assert frames[f].fixes == 0;
    }
  }

  ghost predicate Reached(pages: set<PageId>, table: map<PageId, nat>, f: nat) {
    exists p :: p in pages && p in table && table[p] == f
  }

  lemma {:induction false} SameSize(pages: set<PageId>, fixed: set<nat>, table: map<PageId, nat>)
    requires forall p | p in pages :: p in table && table[p] in fixed
    requires forall f | f in fixed :: Reached(pages, table, f)
    requires forall p, q | p in pages && q in pages && table[p] == table[q] :: p == q
    ensures |pages| == |fixed|
    decreases pages
  {
    if pages == {} {
      assert forall f | f in fixed :: Reached(pages, table, f);
    } else {
      var p :| p in pages;
      var pages', fixed' := pages - {p}, fixed - {table[p]};
      forall f | f in fixed'
        ensures Reached(pages', table, f)
      {
        assert Reached(pages, table, f);
        var q :| q in pages && q in table && table[q] == f;
        assert q in pages';
      }
      SameSize(pages', fixed', table);
    }
  }

  lemma Subset(a: set<nat>, b: set<nat>)
    requires a <= b
    ensures |a| <= |b| && (|a| == |b| <==> a == b)
    ensures |a| < |b| ==> exists x :: x in b && x !in a
  {
    assert b == a + (b - a);
    if a != b {
      var x :| x in b - a;
      assert |b - a| > 0;
    }
  }

  // ------------------------------------------------------------ the two queues

  class TwoQueue {
    const fifo: Queue.HashQueue
    const lru: Queue.HashQueue

    ghost predicate Valid()
      reads this, fifo, lru
    {
      fifo != lru && fifo.Valid() && lru.Valid()
    }

    constructor ()
      ensures Valid() && fresh(fifo) && fresh(lru) && fifo.Items() == [] && lru.Items() == []
    {
      fifo := new Queue.HashQueue();
      lru := new Queue.HashQueue();
    }

    lemma ItemsDistinct()
      requires Valid()
      ensures Queue.Distinct(fifo.Items()) && Queue.Distinct(lru.Items())
    {
      Queue.IndexedItems(fifo.store, fifo.order, fifo.index);
      Queue.IndexedItems(lru.store, lru.order, lru.index);
    }

    /** Makes a frame a candidate: in the first queue the first time, in the second from then on. */
    method Insert(f: nat, frame: Frame) returns (frame': Frame)
      requires Valid() && f !in fifo.Items() && f !in lru.Items()
      modifies fifo, lru
      ensures Valid()
      ensures if frame.fifo then fifo.Items() == old(fifo.Items()) && lru.Items() == old(lru.Items()) + [f]
              else fifo.Items() == old(fifo.Items()) + [f] && lru.Items() == old(lru.Items())
      ensures frame' == if frame.fifo then frame.(lru := true) else frame.(fifo := true)
    {
      if !frame.fifo {
        fifo.Enqueue(f);
        frame' := frame.(fifo := true);
      } else {
        lru.Enqueue(f);
        frame' := frame.(lru := true);
      }
    }

    /** Takes a frame out of the queue it is in, which its flags tell. */
    method Delete(f: nat, frame: Frame)
      requires Valid() && (if frame.lru then f in lru.Items() else frame.fifo && f in fifo.Items())
      modifies fifo, lru
      ensures Valid()
      ensures if frame.lru then fifo.Items() == old(fifo.Items()) && Queue.TakenOut(old(lru.Items()), f, lru.Items())
              else Queue.TakenOut(old(fifo.Items()), f, fifo.Items()) && lru.Items() == old(lru.Items())
    {
      var found;
      if frame.lru {
        found := lru.Delete(f);
      } else if frame.fifo {
        found := fifo.Delete(f);
      }
    }

    /** The front of the first queue, or of the second if the first is empty; the frame's flags are cleared. */
    method Evict(frames: map<nat, Frame>) returns (found: bool, f: nat, frame: Frame)
      requires Valid() && (forall g | g in fifo.Items() || g in lru.Items() :: g in frames)
      modifies fifo, lru
      ensures Valid() && found == (old(fifo.Items()) != [] || old(lru.Items()) != [])
      ensures if old(fifo.Items()) != [] then
                f == old(fifo.Items())[0] && fifo.Items() == old(fifo.Items())[1..] && lru.Items() == old(lru.Items())
              else if found then
                f == old(lru.Items())[0] && fifo.Items() == old(fifo.Items()) && lru.Items() == old(lru.Items())[1..]
              else fifo.Items() == old(fifo.Items()) && lru.Items() == old(lru.Items())
      ensures found ==> f in frames && frame == frames[f].(fifo := false, lru := false)
    {
      if !fifo.IsEmpty() {
        found, f := fifo.Dequeue();
      } else if !lru.IsEmpty() {
        found, f := lru.Dequeue();
      } else {
        found, f := false, 0;
      }
      frame := if found then frames[f].(fifo := false, lru := false) else NewFrame();
    }
  }
}
