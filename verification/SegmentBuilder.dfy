// The streaming segment builder.
module SegmentBuilder {
  import opened Bytes
  import opened Coding
  import opened Plr
  import opened KeyMapping
  import opened SegmentModel

  datatype State = NeedBase | HasBase | FillingSinglePage

  /** A double holds integers up to this one exactly. */
  const MAX_KEY_DIFF: nat := 9007199254740992

  /** The page counts that segments come in. */
  function PageCountOf(index: nat): nat
    requires index < 5
  {
    if index == 0 then 1 else if index == 1 then 2 else if index == 2 then 4 else if index == 3 then 8 else 16
  }

  /** The points that the regression sees: distance from the base against position. */
  function PointsOf(rs: seq<Rec>): (ps: seq<Point>)
    requires FromBase(rs)
    ensures |ps| == |rs|
  {
    seq(|rs|, i requires 0 <= i < |rs| => Point(SegmentModel.Distance(rs, i), i as real))
  }

  lemma PointsNext(rs: seq<Rec>, r: Rec)
    requires FromBase(rs + [r]) && FromBase(rs) && |rs| > 0
    ensures PointsOf(rs + [r]) == PointsOf(rs) + [Point((r.key - rs[0].key) as real, |rs| as real)]
  {
  }

  lemma SortedFromBase(rs: seq<Rec>)
    requires SortedRecords(rs)
    ensures FromBase(rs)
  {
    forall i | 0 <= i < |rs|
      ensures rs[0].key <= rs[i].key
    {
      if i > 0 {
        assert rs[0].key < rs[i].key;
      }
    }
  }

  /** The record comes after all of `rs`. */
  ghost predicate After(rs: seq<Rec>, r: Rec) {
    |rs| > 0 ==> rs[|rs| - 1].key < r.key
  }

  lemma SortedNext(rs: seq<Rec>, r: Rec)
    requires SortedRecords(rs) && After(rs, r)
    ensures SortedRecords(rs + [r])
  {
    forall i | 0 <= i < |rs|
      ensures rs[i].key < r.key
    {
      if i < |rs| - 1 {
        assert rs[i].key < rs[|rs| - 1].key;
      }
    }
  }

  /** The smallest integer not below `r`. */
  function Ceiling(r: real): (c: nat)
    requires r >= 0.0
    ensures r <= c as real < r + 1.0
  {
    if r.Floor as real == r then r.Floor else r.Floor + 1
  }

  lemma FitsPredicts(line: Line, rs: seq<Rec>, epsilon: real)
    requires FromBase(rs) && epsilon >= 0.0 && Fits(line, PointsOf(rs), epsilon)
    ensures Predicts(line, rs, Ceiling(epsilon))
  {
    var e := Ceiling(epsilon);
    assert epsilon <= e as real;
    forall i | 0 <= i < |rs|
      ensures i as real - e as real <= line.At(SegmentModel.Distance(rs, i)) <= i as real + e as real
    {
      assert PointsOf(rs)[i] == Point(SegmentModel.Distance(rs, i), i as real);
    }
  }

  /** What a segment satisfies whose line fits its records. */
  ghost predicate WellCut(s: Segment, goal: nat, e: nat) {
    && |s.records| > 0 && s.base == s.records[0].key && SortedRecords(s.records) && FromBase(s.records)
    && s.pages in {1, 2, 4, 8, 16} && goal > 0
    && (s.pages == 1 ==> s.model.None? && |s.records| <= goal)
    && (s.pages > 1 ==> s.model.Some? && Spread(s, goal, e))
  }

  /** What every emitted segment satisfies: every page of it can be found again. */
  ghost predicate WellBuilt(s: Segment, goal: nat, e: nat) {
    WellCut(s, goal, e) && (s.pages > 1 ==> AllReached(s.model.value, s.pages))
  }

  /** The model of a multi-page segment gives every page its share. */
  ghost predicate Spread(s: Segment, goal: nat, e: nat)
    requires s.pages > 1 && s.model.Some? && FromBase(s.records) && |s.records| > 0
  {
    forall page | 0 <= page < s.pages ::
      goal - 2 * e <= CountOn(s.records[0].key, s.model.value, s.pages, page, s.records) <= goal + 2 * e
  }

  ghost predicate AllWellBuilt(segments: seq<Segment>, goal: nat, e: nat) {
    forall i | 0 <= i < |segments| :: WellBuilt(segments[i], goal, e)
  }

  lemma JoinBuilt(a: seq<Segment>, b: seq<Segment>, rest: seq<Rec>, all: seq<Rec>, goal: nat, e: nat)
    requires AllWellBuilt(a, goal, e) && AllWellBuilt(b, goal, e) && AllRecords(a) + rest == all && AllRecords(b) == rest
    ensures AllWellBuilt(a + b, goal, e) && AllRecords(a + b) == all && (|a| > 0 ==> (a + b)[0] == a[0])
  {
    AllRecordsConcat(a, b);
  }

  lemma ModelledSpread(line: Line, rs: seq<Rec>, e: nat, goal: nat, pages: nat)
    requires Modelled(line, rs, e, goal, pages)
    ensures Spread(Segment(rs[0].key, pages, rs, Some(line.Rescale(goal as real))), goal, e)
  {
    var m := line.Rescale(goal as real);
    forall page | 0 <= page < pages
      ensures goal - 2 * e <= CountOn(rs[0].key, m, pages, page, rs) <= goal + 2 * e
    {
      PageCount(line, rs, e, goal, pages, page);
    }
  }

  lemma PagesReached(line: Line, goal: nat, pages: nat)
    requires goal > 0 && 0.0 < line.slope <= goal as real && line.At(0.0) < (2 * goal) as real
    ensures AllReached(line.Rescale(goal as real), pages)
  {
    var m := line.Rescale(goal as real);
    RescaleAt(line, goal, 0.0, 0);
    forall page | 1 <= page < pages
      ensures Reached(m, pages, page)
    {
      PageIsReached(line, goal, pages, page);
    }
  }

  /** A steeper line can fit its records as closely and pass over a page. */
  lemma SteepLineMissesPage()
    ensures var line, rs := Line(5.0 / 3.0, -1.0), [Rec(0, []), Rec(1, []), Rec(2, []), Rec(3, [])];
            && GoodLine(line, rs, 1.0) && SortedRecords(rs) && CutAt(line, rs, 4, 3) && 4.0 <= LastSize(line, rs)
            && !Reached(line.Rescale(1.0), 4, 1)
  {
    var line, rs := Line(5.0 / 3.0, -1.0), [Rec(0, []), Rec(1, []), Rec(2, []), Rec(3, [])];
    assert forall i | 0 <= i < 4 :: rs[i].key == i;
    assert line.Rescale(1.0) == line;
    forall x: nat
      ensures !Witness(line, 4, 1, x)
    {
      assert line.At(x as real) == 5.0 / 3.0 * x as real - 1.0;
    }
  }

  // ------------------------------------------------------------ sizes

  /** The records that the model counts up to the last key. */
  function LastSize(line: Line, rs: seq<Rec>): real
    requires |rs| > 0 && FromBase(rs)
  {
    var v := line.At(SegmentModel.Distance(rs, |rs| - 1));
    1.0 + (if v < 0.0 then 0.0 else v)
  }

  lemma PrefixDistances(rs: seq<Rec>, n: nat)
    requires FromBase(rs) && 0 < n <= |rs|
    ensures FromBase(rs[..n])
    ensures forall i | 0 <= i < n :: SegmentModel.Distance(rs[..n], i) == SegmentModel.Distance(rs, i)
  {
    forall i | 0 <= i < n
      ensures rs[..n][0].key <= rs[..n][i].key && SegmentModel.Distance(rs[..n], i) == SegmentModel.Distance(rs, i)
    {
      assert rs[0].key <= rs[i].key;
    }
  }

  lemma {:induction false} PrefixModelled(line: Line, rs: seq<Rec>, e: nat, goal: nat, pages: nat, n: nat)
    requires goal > 0 && pages > 1 && |rs| > 0 && FromBase(rs) && SortedRecords(rs)
    requires line.slope > 0.0 && Predicts(line, rs, e) && 0 < n && CutAt(line, rs, goal * pages, n)
    requires (goal * pages) as real <= LastSize(line, rs)
    ensures Modelled(line, rs[..n], e, goal, pages)
  {
    EnoughRecords(line, rs, e, goal * pages, n);
    PrefixParts(line, rs, e, goal * pages, n);
  }

  lemma EnoughRecords(line: Line, rs: seq<Rec>, e: nat, bound: nat, n: nat)
    requires |rs| > 0 && FromBase(rs) && Predicts(line, rs, e) && CutAt(line, rs, bound, n)
    requires bound as real <= LastSize(line, rs)
    ensures bound <= n + e
  {
    CutBounds(line, rs, e, bound, n);
  }

  lemma PrefixParts(line: Line, rs: seq<Rec>, e: nat, bound: nat, n: nat)
    requires FromBase(rs) && Predicts(line, rs, e) && 0 < n && CutAt(line, rs, bound, n)
    ensures FromBase(rs[..n]) && Predicts(line, rs[..n], e) && CutAt(line, rs[..n], bound, |rs[..n]|)
  {
    PrefixDistances(rs, n);
  }

  /** The most pages that the line fills with the records; one if it does not even fill that. */
  function PagesFilled(line: Line, rs: seq<Rec>, goal: nat): (pages: nat)
    requires |rs| > 0 && FromBase(rs)
    ensures pages in {1, 2, 4, 8, 16}
    ensures pages > 1 ==> (pages * goal) as real <= LastSize(line, rs)
    ensures forall p | p in {2, 4, 8, 16} && (p * goal) as real <= LastSize(line, rs) :: p <= pages
  {
    var size := LastSize(line, rs);
    if (16 * goal) as real <= size then 16
    else if (8 * goal) as real <= size then 8
    else if (4 * goal) as real <= size then 4
    else if (2 * goal) as real <= size then 2
    else 1
  }

  /**
   * The segment has the most pages that the line fills, and exactly the first records that the line predicts on them;
   * on a single page, as many as its goal.
   */
  ghost predicate IsCut(s: Segment, line: Line, rs: seq<Rec>, goal: nat)
    requires |rs| > 0 && FromBase(rs) && goal > 0
  {
    var pages, n := PagesFilled(line, rs, goal), |s.records|;
    && s.base == rs[0].key && s.pages == pages && n <= |rs| && s.records == rs[..n]
    && if pages == 1 then s.model == None && n == Min(goal, |rs|)
       else s.model == Some(line.Rescale(goal as real)) && CutAt(line, rs, goal * pages, n)
  }

  /** A segment of one page without a model. */
  ghost predicate IsPage(s: Segment, rs: seq<Rec>, goal: nat) {
    |rs| > 0 && s == Segment(rs[0].key, 1, rs[..Min(goal, |rs|)], None)
  }

  lemma PagesOfIndex(line: Line, rs: seq<Rec>, goal: nat, index: int)
    requires |rs| > 0 && FromBase(rs) && -1 <= index < 5
    requires index >= 0 ==> (PageCountOf(index) * goal) as real <= LastSize(line, rs)
    requires index < 4 ==> (PageCountOf(index + 1) * goal) as real > LastSize(line, rs)
    ensures PagesFilled(line, rs, goal) == if index <= 0 then 1 else PageCountOf(index)
  {
  }

  /** The first record is predicted before the end of any multi-page segment. */
  lemma FirstIsIn(line: Line, rs: seq<Rec>, goal: nat, pages: nat, n: nat)
    requires |rs| > 0 && FromBase(rs) && line.At(0.0) < (2 * goal) as real
    requires pages > 1 && CutAt(line, rs, goal * pages, n)
    ensures n > 0
  {
    assert SegmentModel.Distance(rs, 0) == 0.0;
    assert 2 * goal <= goal * pages;
  }

  // ------------------------------------------------------------ what becomes of a record

  /** What the builder has. */
  datatype Batch = Batch(goal: nat, epsilon: real, maxRecords: nat, state: State, plr: Option<Builder>, base: Key, held: seq<Rec>) {
    ghost predicate Configured() {
      goal > 0 && epsilon > 0.0 && maxRecords == ((goal as real + epsilon) * 16.0).Floor
    }

    ghost predicate Sound() {
      && Configured() && SortedRecords(held) && FromBase(held)
      && (state.NeedBase? <==> |held| == 0)
      && (|held| > 0 ==> base == held[0].key)
      && (state.HasBase? ==> plr.Some? && plr.value.delta == epsilon && Tracks(plr.value, PointsOf(held)))
      && (state.FillingSinglePage? ==> |held| <= goal)
    }
  }

  /** Where the next record is, seen from the base. */
  function PointOf(held: seq<Rec>, base: Key, record: Rec): Point {
    Point((record.key as int - base as int) as real, |held| as real)
  }

  /** The line that the records so far end with, unless the record can be added to them. */
  ghost function Verdict(b: Batch, record: Rec): Option<Line>
    requires b.Sound() && b.state.HasBase? && After(b.held, record)
  {
    TracksReady(b.plr.value, b.held, record);
    if |b.held| < b.maxRecords && record.key - b.base <= MAX_KEY_DIFF then b.plr.value.Offer(PointOf(b.held, b.base, record)).1
    else b.plr.value.Finish()
  }

  /** The batch after the model has taken the record in. */
  lemma AbsorbSound(b: Batch, record: Rec)
    requires b.Sound() && b.state.HasBase? && After(b.held, record)
    ensures b.plr.value.Ready(PointOf(b.held, b.base, record))
    ensures var r := b.plr.value.Offer(PointOf(b.held, b.base, record));
            r.1.None? ==> b.(plr := Some(r.0), held := b.held + [record]).Sound()
  {
    var p := PointOf(b.held, b.base, record);
    TracksReady(b.plr.value, b.held, record);
    OfferTracks(b.plr.value, PointsOf(b.held), p);
    SortedNext(b.held, record);
    SortedFromBase(b.held + [record]);
    PointsNext(b.held, record);
  }

  /** A record that is refused ends the line of those before it. */
  lemma RefusedFinishes(b: Batch, record: Rec)
    requires b.Sound() && b.state.HasBase? && After(b.held, record)
    ensures b.plr.value.Ready(PointOf(b.held, b.base, record))
    ensures var r := b.plr.value.Offer(PointOf(b.held, b.base, record)); r.1.Some? ==> r.1 == b.plr.value.Finish()
  {
    TracksReady(b.plr.value, b.held, record);
    OfferTracks(b.plr.value, PointsOf(b.held), PointOf(b.held, b.base, record));
  }

  /** The record joins those that are held: the model takes it in, or they make up less than a page. */
  ghost predicate Takes(b: Batch, record: Rec)
    requires b.Sound() && After(b.held, record)
  {
    if b.state.NeedBase? then true
    else if b.state.FillingSinglePage? then |b.held| < b.goal
    else
      var line := Verdict(b, record);
      line.None? || (PagesFilled(line.value, b.held, b.goal) == 1 && |b.held| < b.goal)
  }

  /** The segment that is cut off before the record. */
  ghost predicate Cuts(b: Batch, record: Rec, s: Segment)
    requires b.Sound() && After(b.held, record)
  {
    !Takes(b, record)
    && if b.state.FillingSinglePage? then IsPage(s, b.held, b.goal) else IsCut(s, Verdict(b, record).value, b.held, b.goal)
  }

  /** The model after a record was taken into it. */
  ghost predicate Learned(a: Batch, record: Rec, b: Batch)
    requires a.Sound() && After(a.held, record)
  {
    && (a.state.NeedBase? ==> b.state.HasBase? && b.plr == Some(Builder(a.epsilon, Some(Point(0.0, 0.0)), None, None)))
    && (a.state.HasBase? && Verdict(a, record).None? ==>
          && b.state.HasBase? && a.plr.value.Ready(PointOf(a.held, a.base, record))
          && b.plr == Some(a.plr.value.Offer(PointOf(a.held, a.base, record)).0))
  }

  /** What offering a record does. */
  ghost predicate Offered(a: Batch, record: Rec, segments: seq<Segment>, b: Batch)
    requires a.Sound() && After(a.held, record)
  {
    && (segments == [] <==> Takes(a, record)) && (segments != [] ==> Cuts(a, record, segments[0]))
    && Learned(a, record, b)
  }

  /** The segment that is cut off when no more records come. */
  ghost predicate Ends(b: Batch, s: Segment)
    requires b.Sound() && b.state.HasBase?
  {
    LineIsGood(b.plr.value, b.held, b.epsilon);
    IsCut(s, b.plr.value.Finish().value, b.held, b.goal)
  }

  // ------------------------------------------------------------ consecutive keys

  ghost predicate Consecutive(rs: seq<Rec>) {
    forall i | 0 <= i < |rs| :: rs[i].key == rs[0].key + i
  }

  /** The first records of a run of consecutive keys, on as many pages as a segment can have. */
  ghost function Largest(rs: seq<Rec>, goal: nat): Segment
    requires goal > 0 && 16 * goal <= |rs|
  {
    Segment(rs[0].key, 16, rs[..16 * goal], Some(Line(1.0, 0.0).Rescale(goal as real)))
  }

  lemma ConsecutiveDistance(rs: seq<Rec>, i: nat)
    requires Consecutive(rs) && i < |rs|
    ensures FromBase(rs) && Line(1.0, 0.0).At(SegmentModel.Distance(rs, i)) == i as real
  {
  }

  /** The diagonal cuts the largest segment off enough consecutive keys. */
  lemma DiagonalCut(s: Segment, rs: seq<Rec>, goal: nat)
    requires Consecutive(rs) && goal > 0 && 16 * goal <= |rs| && FromBase(rs)
    ensures PagesFilled(Line(1.0, 0.0), rs, goal) == 16
    ensures IsCut(s, Line(1.0, 0.0), rs, goal) ==> s == Largest(rs, goal)
  {
    var line := Line(1.0, 0.0);
    ConsecutiveDistance(rs, |rs| - 1);
    if IsCut(s, line, rs, goal) {
      var n := |s.records|;
      if n < 16 * goal {
        ConsecutiveDistance(rs, n);
      } else if n > 16 * goal {
        ConsecutiveDistance(rs, 16 * goal);
      }
    }
  }

  /** The most records that are held before a segment is cut off consecutive keys. */
  ghost function Limit(b: Batch): nat {
    Min(b.maxRecords, MAX_KEY_DIFF + 1)
  }

  /** The builder holds consecutive keys, and its model has taken in all of them. */
  ghost predicate Straightens(b: Batch)
    requires b.Sound()
  {
    && b.state.HasBase? && Consecutive(b.held) && |b.held| <= Limit(b) && OnDiagonal(b.plr.value, |b.held|)
    && 16 * b.goal <= MAX_KEY_DIFF + 1
  }

  lemma LimitIsLarge(b: Batch)
    requires b.Configured() && 16 * b.goal <= MAX_KEY_DIFF + 1
    ensures 16 * b.goal <= Limit(b)
  {
    assert (b.goal as real + b.epsilon) * 16.0 >= (16 * b.goal) as real;
  }

  /** The next key joins consecutive ones as long as the limit is not reached. */
  lemma StraightTakes(b: Batch, record: Rec)
    requires b.Sound() && Straightens(b) && record.key == b.base + |b.held| && |b.held| < Limit(b)
    ensures After(b.held, record) && Verdict(b, record).None?
    ensures b.plr.value.Ready(PointOf(b.held, b.base, record))
    ensures OnDiagonal(b.plr.value.Offer(PointOf(b.held, b.base, record)).0, |b.held| + 1)
  {
    TracksReady(b.plr.value, b.held, record);
    DiagonalNext(b.plr.value, |b.held|);
  }

  /** At the limit the largest segment is cut off. */
  lemma StraightCuts(b: Batch, record: Rec, s: Segment)
    requires b.Sound() && Straightens(b) && record.key == b.base + |b.held| && |b.held| == Limit(b)
    ensures After(b.held, record) && !Takes(b, record) && 16 * b.goal <= |b.held|
    ensures Cuts(b, record, s) ==> s == Largest(b.held, b.goal)
  {
    LimitIsLarge(b);
    DiagonalFinish(b.plr.value, |b.held|);
    DiagonalCut(s, b.held, b.goal);
  }

  /** What becomes of the first `k` of a run of consecutive keys: all are held, or the largest segment was cut off first. */
  ghost predicate Along(b: Batch, all: seq<Rec>, k: nat, segments: seq<Segment>)
    requires b.Sound()
  {
    && 16 * b.goal <= MAX_KEY_DIFF + 1 && Consecutive(all) && k <= |all|
    && if k <= Limit(b) then segments == [] && b.held == all[..k] && (if k == 0 then b.state.NeedBase? else Straightens(b))
       else 16 * b.goal <= |all| && segments != [] && segments[0] == Largest(all, b.goal)
  }

  /** The next record of the run has been offered. */
  ghost predicate NextOffered(a: Batch, record: Rec, more: seq<Segment>, b: Batch) {
    && a.Sound() && b.Sound() && After(a.held, record)
    && (a.goal, a.epsilon, a.maxRecords) == (b.goal, b.epsilon, b.maxRecords)
    && Offered(a, record, more, b) && (more == [] ==> b.held == a.held + [record])
  }

  lemma AlongFirst(a: Batch, record: Rec, more: seq<Segment>, b: Batch, all: seq<Rec>)
    requires a.Sound() && Along(a, all, 0, []) && 0 < |all| && record == all[0] && NextOffered(a, record, more, b)
    ensures b.Sound() && Along(b, all, 1, more)
  {
    LimitIsLarge(a);
    assert all[..1] == [record];
  }

  lemma AlongTakes(a: Batch, record: Rec, more: seq<Segment>, b: Batch, all: seq<Rec>, k: nat)
    requires a.Sound() && Along(a, all, k, []) && 0 < k < |all| && k < Limit(a) && record == all[k] && NextOffered(a, record, more, b)
    ensures b.Sound() && Along(b, all, k + 1, more)
  {
    StraightTakes(a, record);
    assert all[..k + 1] == all[..k] + [record];
  }

  lemma AlongCuts(a: Batch, record: Rec, more: seq<Segment>, b: Batch, all: seq<Rec>, k: nat)
    requires a.Sound() && Along(a, all, k, []) && 0 < k < |all| && k == Limit(a) && record == all[k] && NextOffered(a, record, more, b)
    ensures b.Sound() && Along(b, all, k + 1, more)
  {
    StraightCuts(a, record, if more == [] then Segment(0, 0, [], None) else more[0]);
    LargestPrefix(all, k, a.goal);
  }

  lemma AlongNext(a: Batch, record: Rec, more: seq<Segment>, b: Batch, all: seq<Rec>, k: nat, segments: seq<Segment>)
    requires a.Sound() && Along(a, all, k, segments) && k < |all| && record == all[k] && NextOffered(a, record, more, b)
    ensures b.Sound() && Along(b, all, k + 1, segments + more)
  {
    LimitIsLarge(a);
    if k <= Limit(a) {
      assert segments + more == more;
      if k == 0 {
        AlongFirst(a, record, more, b, all);
      } else if k < Limit(a) {
        AlongTakes(a, record, more, b, all, k);
      } else {
        AlongCuts(a, record, more, b, all, k);
      }
    }
  }

  lemma LargestPrefix(all: seq<Rec>, k: nat, goal: nat)
    requires goal > 0 && 16 * goal <= k <= |all|
    ensures Largest(all[..k], goal) == Largest(all, goal)
  {
    assert all[..k][..16 * goal] == all[..16 * goal];
  }

  lemma AlongStart(b: Batch, all: seq<Rec>)
    requires b.Sound() && Consecutive(all) && 16 * b.goal <= MAX_KEY_DIFF + 1 && |b.held| <= 1 && b.held <= all
    requires |b.held| == 1 ==> b.state.HasBase? && b.plr == Some(Builder(b.epsilon, Some(Point(0.0, 0.0)), None, None))
    ensures Along(b, all, |b.held|, [])
  {
    LimitIsLarge(b);
  }

  /** The first `i` records of a dataset have been offered behind those of `head`. */
  ghost predicate Underway(b: Batch, head: seq<Rec>, dataset: seq<Rec>, all: seq<Rec>, i: nat, along: bool, segments: seq<Segment>) {
    && i <= |dataset| && b.Sound() && AllRecords(segments) + b.held == head + dataset[..i]
    && AllWellBuilt(segments, b.goal, Ceiling(b.epsilon)) && (along ==> Along(b, all, |head| + i, segments))
  }

  lemma UnderwayNext(a: Batch, head: seq<Rec>, dataset: seq<Rec>, all: seq<Rec>, i: nat, along: bool, done: seq<Segment>,
                     more: seq<Segment>, b: Batch)
    requires Underway(a, head, dataset, all, i, along, done) && i < |dataset| && b.Sound()
    requires b.goal == a.goal && b.epsilon == a.epsilon && AllWellBuilt(more, b.goal, Ceiling(b.epsilon))
    requires AllRecords(more) + b.held == a.held + [dataset[i]]
    requires along && Along(a, all, |head| + i, done) ==> Along(b, all, |head| + i + 1, done + more)
    ensures Underway(b, head, dataset, all, i + 1, along, done + more)
  {
    OfferedNext(done, more, a.held, b.held, head, dataset, i);
  }

  lemma Begun(b: Batch, dataset: seq<Rec>, all: seq<Rec>, along: bool)
    requires b.Sound() && (along ==> Along(b, all, |b.held|, []))
    ensures Underway(b, b.held, dataset, all, 0, along, [])
  {
    assert AllRecords([]) + b.held == b.held + dataset[..0];
  }

  class SegmentBuilder {
    const goal: nat
    const epsilon: real
    const maxRecords: nat
    var state: State
    var plr: Option<Builder>
    var base: Key
    var held: seq<Rec>

    constructor (goal: nat, epsilon: real)
      requires goal > 0 && epsilon > 0.0
      ensures Valid() && held == [] && this.goal == goal && this.epsilon == epsilon
    {
      this.goal := goal;
      this.epsilon := epsilon;
      maxRecords := ((goal as real + epsilon) * 16.0).Floor;
      state, plr, base, held := NeedBase, None, 0, [];
    }

    ghost function Now(): Batch
      reads this
    {
      Batch(goal, epsilon, maxRecords, state, plr, base, held)
    }

    ghost predicate Configured() {
      goal > 0 && epsilon > 0.0 && maxRecords == ((goal as real + epsilon) * 16.0).Floor
    }

    ghost function Slack(): nat
      requires Configured()
    {
      Ceiling(epsilon)
    }

    ghost predicate Valid()
      reads this
    {
      Now().Sound()
    }

    method ResetStream()
      modifies this`state, this`plr, this`base, this`held
      ensures held == [] && state == NeedBase
    {
      held, state, plr, base := [], NeedBase, None, 0;
    }

    /** The smallest key that is not in a segment yet. */
    function CurrentBaseKey(): (key: Option<Key>)
      requires Valid()
      reads this
      ensures key.None? <==> |held| == 0
      ensures key.Some? ==> key.value == held[0].key && forall i | 0 <= i < |held| :: key.value <= held[i].key
    {
      if state.NeedBase? then None else Some(base)
    }

    /** The largest segment that the line fills, or -1. */
    method ComputeSegmentSizeIndex(line: Line) returns (index: int)
      requires |held| > 0 && FromBase(held) && base == held[0].key
      ensures -1 <= index < 5
      ensures index >= 0 ==> (PageCountOf(index) * goal) as real <= LastSize(line, held)
      ensures index < 4 ==> (PageCountOf(index + 1) * goal) as real > LastSize(line, held)
    {
      var v := line.At((held[|held| - 1].key - base) as real);
      var size := 1.0 + (if v < 0.0 then 0.0 else v);
      index := -1;
      while index < 4 && (PageCountOf(index + 1) * goal) as real <= size
        invariant -1 <= index < 5
        invariant index >= 0 ==> (PageCountOf(index) * goal) as real <= size
        decreases 4 - index
      {
        index := index + 1;
      }
    }

    /** The records that the line predicts to be in a segment of that size. */
    method ComputeNumRecordsInSegment(line: Line, pages: nat) returns (n: nat)
      requires |held| > 0 && FromBase(held) && SortedRecords(held) && base == held[0].key && line.slope > 0.0
      ensures CutAt(line, held, goal * pages, n)
    {
      var lo: nat, hi: nat := 0, |held|;
      while lo < hi
        invariant lo <= hi <= |held|
        invariant forall i | 0 <= i < lo :: line.At(SegmentModel.Distance(held, i)) < (goal * pages) as real
        invariant forall i | hi <= i < |held| :: line.At(SegmentModel.Distance(held, i)) >= (goal * pages) as real
        decreases hi - lo
      {
        var mid := lo + (hi - lo) / 2;
        CutSides(line, held, goal * pages, mid);
        if line.At((held[mid].key - base) as real) < (goal * pages) as real {
          lo := mid + 1;
        } else {
          hi := mid;
        }
      }
      n := lo;
    }

    /** Takes records off the front. */
    method CreateSegmentUsing(model: Option<Line>, pages: nat, num: nat) returns (s: Segment)
      modifies this`held
      ensures var k := Min(num, |old(held)|); s == Segment(base, pages, old(held)[..k], model) && held == old(held)[k..]
    {
      var records := [];
      var i := 0;
      while i < num && |held| > 0
        invariant i <= num && i == |records| <= |old(held)|
        invariant records == old(held)[..i] && held == old(held)[i..]
        decreases |held|
      {
        records := records + [held[0]];
        held := held[1..];
        i := i + 1;
      }
      s := Segment(base, pages, records, model);
    }

    /** The records held can be cut into segments. */
    ghost predicate Cuttable()
      reads this
    {
      Configured() && |held| > 0 && SortedRecords(held) && FromBase(held) && base == held[0].key
    }

    /** Fills one page, without a model. */
    method EmitPage() returns (s: Segment)
      requires Cuttable()
      modifies this`held
      ensures WellBuilt(s, goal, Slack()) && s.records + held == old(held) && |s.records| > 0
      ensures |old(held)| <= goal ==> s.records == old(held)
      ensures IsPage(s, old(held), goal)
    {
      ghost var rs := held;
      s := CreateSegmentUsing(None, 1, goal);
    }

    /** Fills the pages that the line predicts. */
    method EmitModelled(line: Line, pages: nat) returns (s: Segment)
      requires Cuttable() && GoodLine(line, held, epsilon) && line.At(0.0) < (2 * goal) as real && pages in {2, 4, 8, 16}
      requires pages == PagesFilled(line, held, goal)
      modifies this`held
      ensures s.records + held == old(held) && |s.records| > 0 && WellCut(s, goal, Slack())
      ensures line.slope <= goal as real ==> WellBuilt(s, goal, Slack())
      ensures IsCut(s, line, old(held), goal)
    {
      ghost var rs := held;
      var n := ComputeNumRecordsInSegment(line, pages);
      FirstIsIn(line, rs, goal, pages, n);
      s := CreateSegmentUsing(Some(line.Rescale(goal as real)), pages, n);
      SegmentSpread(line, rs, epsilon, goal, pages, n);
    }

    /** Cuts a segment of the largest size that a line allows; any line that fits the records and starts low will do. */
    method CutBy(line: Line) returns (s: Segment)
      requires Cuttable() && GoodLine(line, held, epsilon) && line.At(0.0) < (2 * goal) as real
      modifies this`held
      ensures s.records + held == old(held) && |s.records| > 0 && WellCut(s, goal, Slack())
      ensures line.slope <= goal as real ==> WellBuilt(s, goal, Slack())
      ensures IsCut(s, line, old(held), goal)
    {
      var index := ComputeSegmentSizeIndex(line);
      PagesOfIndex(line, held, goal, index);
      if index <= 0 {
        s := EmitPage();
      } else {
        s := EmitModelled(line, PageCountOf(index));
      }
    }

    /** Begins a batch with its base record. */
    method TakeBase(record: Rec)
      requires Valid() && state.NeedBase?
      modifies this
      ensures Valid() && held == [record] && state == HasBase
      ensures plr == Some(Builder(epsilon, Some(Point(0.0, 0.0)), None, None))
    {
      base := record.key;
      var b := Builder(epsilon, None, None, None);
      plr := Some(b.Offer(Point(0.0, 0.0)).0);
      held := [record];
      state := HasBase;
      assert PointsOf(held) == [Point(0.0, 0.0)];
    }

    /** Takes the record into the model, or returns the line of the records so far. */
    method TryAbsorb(record: Rec) returns (line: Option<Line>)
      requires Valid() && state.HasBase? && After(held, record)
      modifies this`plr, this`held
      ensures line == Verdict(old(Now()), record)
      ensures line.None? ==> Valid() && held == old(held) + [record]
      ensures Learned(old(Now()), record, Now())
      ensures line.Some? ==> held == old(held) && GoodLine(line.value, held, epsilon) && Mild(line.value)
    {
      LineIsGood(plr.value, held, epsilon);
      TracksReady(plr.value, held, record);
      if |held| < maxRecords && record.key - base <= MAX_KEY_DIFF {
        AbsorbSound(Now(), record);
        var r := plr.value.Offer(PointOf(held, base, record));
        plr, line := Some(r.0), r.1;
        if line.None? {
          held := held + [record];
        } else {
          RefusedFinishes(old(Now()), record);
        }
      } else {
        line := plr.value.Finish();
      }
    }

    /** Takes a record into a batch that has a model, or cuts a segment off the records before it. */
    method TakeOrCut(record: Rec) returns (s: Option<Segment>)
      requires Valid() && state.HasBase? && After(held, record)
      modifies this
      ensures s.None? <==> Takes(old(Now()), record)
      ensures s.Some? ==> Cuts(old(Now()), record, s.value)
      ensures Learned(old(Now()), record, Now())
      ensures s.None? ==> Valid() && held == old(held) + [record]
      ensures s.Some? ==> s.value.records + held == old(held) && |s.value.records| > 0
      ensures s.Some? ==> WellBuilt(s.value, goal, Slack())
    {
      SortedNext(held, record);
      SortedFromBase(held + [record]);
      var line := TryAbsorb(record);
      if line.None? {
        return None;
      }
      var index := ComputeSegmentSizeIndex(line.value);
      PagesOfIndex(line.value, held, goal, index);
      if index <= 0 && goal > |held| {
        held := held + [record];
        state := FillingSinglePage;
        return None;
      }
      var segment := CutBy(line.value);
      return Some(segment);
    }

    /** Takes a record onto a single page, or cuts the page off. */
    method FillOrCut(record: Rec) returns (s: Option<Segment>)
      requires Valid() && state.FillingSinglePage? && After(held, record)
      modifies this`held
      ensures s.None? <==> Takes(old(Now()), record)
      ensures s.Some? ==> Cuts(old(Now()), record, s.value)
      ensures s.None? ==> Valid() && held == old(held) + [record]
      ensures s.Some? ==> s.value.records + held == old(held) && |s.value.records| > 0
      ensures s.Some? ==> WellBuilt(s.value, goal, Slack())
    {
      SortedNext(held, record);
      SortedFromBase(held + [record]);
      if goal > |held| {
        held := held + [record];
        return None;
      }
      var segment := EmitPage();
      return Some(segment);
    }

    /** Offers one record; returns the segments that are complete. */
    method Offer(record: Rec) returns (segments: seq<Segment>)
      requires Valid() && After(held, record)
      modifies this
      ensures Valid() && 0 < |held| <= |old(held)| + 1
      ensures AllRecords(segments) + held == old(held) + [record]
      ensures AllWellBuilt(segments, goal, Slack())
      ensures Offered(old(Now()), record, segments, Now())
      decreases |held|, 2
    {
      segments := [];
      if state.NeedBase? {
        TakeBase(record);
      } else {
        segments := OfferHeld(record);
      }
    }

    /** Offers one record behind others. */
    method OfferHeld(record: Rec) returns (segments: seq<Segment>)
      requires Valid() && !state.NeedBase? && After(held, record)
      modifies this
      ensures Valid() && 0 < |held| <= |old(held)| + 1
      ensures AllRecords(segments) + held == old(held) + [record]
      ensures AllWellBuilt(segments, goal, Slack())
      ensures Offered(old(Now()), record, segments, Now())
      decreases |held|, 1
    {
      segments := [];
      ghost var rs := held;
      SortedNext(rs, record);
      var s := JoinOrCut(record);
      if s.Some? {
        CutRest(s.value, held, rs, record);
        segments := DrainRemainingRecordsAndReset([s.value], [record]);
        assert segments[0] == [s.value][0];
      }
    }

    /** Takes a record in, or cuts a segment off the records before it. */
    method JoinOrCut(record: Rec) returns (s: Option<Segment>)
      requires Valid() && !state.NeedBase? && After(held, record)
      modifies this
      ensures s.None? <==> Takes(old(Now()), record)
      ensures s.Some? ==> Cuts(old(Now()), record, s.value)
      ensures Learned(old(Now()), record, Now())
      ensures s.None? ==> Valid() && held == old(held) + [record]
      ensures s.Some? ==> s.value.records + held == old(held) && |s.value.records| > 0
      ensures s.Some? ==> WellBuilt(s.value, goal, Slack())
    {
      if state.HasBase? {
        s := TakeOrCut(record);
      } else {
        s := FillOrCut(record);
      }
    }

    /** Offers what is left again, to an empty builder. */
    method DrainRemainingRecordsAndReset(done: seq<Segment>, extra: seq<Rec>) returns (segments: seq<Segment>)
      requires Configured() && SortedRecords(held + extra) && AllWellBuilt(done, goal, Slack())
      modifies this
      ensures Valid() && (|old(held)| + |extra| > 0 ==> |held| > 0) && |held| <= |old(held)| + |extra|
      ensures done <= segments && AllRecords(segments) + held == AllRecords(done) + (old(held) + extra)
      ensures AllWellBuilt(segments, goal, Slack())
      decreases |held| + |extra|, 0
    {
      var leftover := held + extra;
      ResetStream();
      segments := done;
      for i := 0 to |leftover|
        invariant Valid() && (i > 0 ==> |held| > 0) && |held| <= i
        invariant done <= segments && AllRecords(segments) + held == AllRecords(done) + leftover[..i]
        invariant AllWellBuilt(segments, goal, Slack())
      {
        LastHeld(AllRecords(segments), held, AllRecords(done), leftover, i);
        ghost var before := held;
        var more := Offer(leftover[i]);
        OfferedNext(segments, more, before, held, AllRecords(done), leftover, i);
        segments := segments + more;
      }
      assert leftover[..|leftover|] == leftover;
    }

    /** Cuts the next segment off a batch that has a model. */
    method CutNext() returns (s: Segment)
      requires Valid() && state.HasBase?
      modifies this`held
      ensures s.records + held == old(held) && |s.records| > 0 && WellBuilt(s, goal, Slack())
      ensures Ends(old(Now()), s)
    {
      LineIsGood(plr.value, held, epsilon);
      var line := plr.value.Finish().value;
      s := CutBy(line);
    }

    /** Turns everything that is held into segments. */
    method Finish() returns (segments: seq<Segment>)
      requires Valid()
      modifies this
      ensures Valid() && held == []
      ensures AllRecords(segments) == old(held)
      ensures AllWellBuilt(segments, goal, Slack())
      ensures old(state.NeedBase?) ==> segments == []
      ensures old(state.FillingSinglePage?) ==> |segments| == 1 && IsPage(segments[0], old(held), goal)
      ensures old(state.HasBase?) ==> segments != [] && Ends(old(Now()), segments[0])
      decreases |held|, 4
    {
      if state.NeedBase? {
        ResetStream();
        return [];
      }
      if state.FillingSinglePage? {
        var s := EmitPage();
        AllRecordsOne(s);
        ResetStream();
        return [s];
      }
      segments := FinishModelled();
    }

    /** Cuts a segment off and finishes what is left. */
    method FinishModelled() returns (segments: seq<Segment>)
      requires Valid() && state.HasBase?
      modifies this
      ensures Valid() && held == []
      ensures AllRecords(segments) == old(held)
      ensures AllWellBuilt(segments, goal, Slack())
      ensures segments != [] && Ends(old(Now()), segments[0])
      decreases |held|, 3
    {
      ghost var rs := held;
      var s := CutNext();
      segments := FinishAfter(s, rs);
    }

    /** Finishes what is left after a segment. */
    method FinishAfter(s: Segment, ghost rs: seq<Rec>) returns (segments: seq<Segment>)
      requires Configured() && WellBuilt(s, goal, Slack()) && SortedRecords(rs) && s.records + held == rs
      modifies this
      ensures Valid() && held == [] && AllRecords(segments) == rs && AllWellBuilt(segments, goal, Slack())
      ensures segments != [] && segments[0] == s
      decreases |held|, 6
    {
      RestSorted(s, held, rs);
      var done := DrainRemainingRecordsAndReset([s], []);
      assert done[0] == [s][0];
      segments := FinishAll(done, rs);
    }

    /** Finishes behind the segments that are complete. */
    method FinishAll(done: seq<Segment>, ghost rs: seq<Rec>) returns (segments: seq<Segment>)
      requires Valid() && AllWellBuilt(done, goal, Slack()) && AllRecords(done) + held == rs
      modifies this
      ensures Valid() && held == [] && AllRecords(segments) == rs && AllWellBuilt(segments, goal, Slack())
      ensures done != [] ==> segments != [] && segments[0] == done[0]
      decreases |held|, 5
    {
      ghost var rest := held;
      var more := Finish();
      JoinBuilt(done, more, rest, rs, goal, Slack());
      segments := done + more;
    }

    /** Offers one record of a dataset. */
    method OfferNext(record: Rec, ghost all: seq<Rec>, ghost k: nat, ghost segments: seq<Segment>) returns (more: seq<Segment>)
      requires Valid() && After(held, record) && k < |all| && record == all[k]
      modifies this
      ensures Valid() && AllRecords(more) + held == old(held) + [record] && AllWellBuilt(more, goal, Slack())
      ensures Along(old(Now()), all, k, segments) ==> Along(Now(), all, k + 1, segments + more)
    {
      ghost var a := Now();
      more := Offer(record);
      if Along(a, all, k, segments) {
        AlongNext(a, record, more, Now(), all, k, segments);
      }
    }

    /** Offers the next record of a dataset. */
    method OfferMore(dataset: seq<Rec>, i: nat, ghost head: seq<Rec>, ghost all: seq<Rec>, ghost along: bool, done: seq<Segment>)
      returns (segments: seq<Segment>)
      requires i < |dataset| && SortedRecords(dataset) && (|head| > 0 ==> After(head, dataset[0])) && all == head + dataset
      requires Underway(Now(), head, dataset, all, i, along, done)
      modifies this
      ensures Underway(Now(), head, dataset, all, i + 1, along, segments)
    {
      LastOffered(AllRecords(done), held, head, dataset, i);
      ghost var a := Now();
      var more := OfferNext(dataset[i], all, |head| + i, done);
      UnderwayNext(a, head, dataset, all, i, along, done, more, Now());
      segments := done + more;
    }

    /** Offers a sorted dataset record by record. */
    method OfferAll(dataset: seq<Rec>, ghost all: seq<Rec>, ghost along: bool) returns (segments: seq<Segment>)
      requires Valid() && SortedRecords(dataset) && (|dataset| > 0 ==> After(held, dataset[0])) && all == held + dataset
      requires along ==> Along(Now(), all, |held|, [])
      modifies this
      ensures Underway(Now(), old(held), dataset, all, |dataset|, along, segments)
    {
      ghost var head := held;
      segments := [];
      Begun(Now(), dataset, all, along);
      for i := 0 to |dataset|
        invariant Underway(Now(), head, dataset, all, i, along, segments)
      {
        segments := OfferMore(dataset, i, head, all, along, segments);
      }
    }

    /**
     * Segments a whole sorted dataset, optionally behind a placeholder for the smallest key. Consecutive keys, if there
     * are more than fit in one batch, begin with the largest segment.
     */
    method BuildFromDataset(dataset: seq<Rec>, forceMinKey: bool) returns (segments: seq<Segment>)
      requires Configured() && SortedRecords(dataset) && (forceMinKey && |dataset| > 0 ==> dataset[0].key > 0)
      modifies this
      ensures Valid() && held == []
      ensures AllRecords(segments) == (if forceMinKey then [Rec(0, [])] else []) + dataset
      ensures AllWellBuilt(segments, goal, Slack())
      ensures var all := (if forceMinKey then [Rec(0, [])] else []) + dataset;
              Consecutive(all) && |all| > Limit(Now()) && 16 * goal <= MAX_KEY_DIFF + 1 ==>
                16 * goal <= |all| && segments != [] && segments[0] == Largest(all, goal)
    {
      ResetStream();
      if forceMinKey {
        TakeBase(Rec(0, []));
      }
      ghost var all := held + dataset;
      ghost var along := Consecutive(all) && 16 * goal <= MAX_KEY_DIFF + 1;
      if along {
        AlongStart(Now(), all);
      }
      var done := OfferAll(dataset, all, along);
      assert dataset[..|dataset|] == dataset;
      segments := FinishAll(done, all);
    }
  }

  function KeysOf(rs: seq<Rec>): (keys: seq<Key>)
    ensures |keys| == |rs|
  {
    seq(|rs|, i requires 0 <= i < |rs| => rs[i].key)
  }

  /** Lays a built segment out on its pages: each record goes where lookups will look for it. */
  method LoadIntoNewSegment(s: Segment, goal: nat, ghost e: nat) returns (pages: seq<seq<Key>>)
    requires WellBuilt(s, goal, e)
    ensures |pages| == s.pages && Flatten(pages) == KeysOf(s.records)
    ensures forall p, i | 0 <= p < s.pages && 0 <= i < |pages[p]| ::
              s.base <= pages[p][i] && SegmentPage(s.base, s.model, s.pages, pages[p][i]) == p
  {
    var keys := KeysOf(s.records);
    var model := if s.model.Some? then s.model.value else Line(0.0, 0.0);
    pages := PlaceRecords(s.base, model, s.pages, keys);
    forall p, i | 0 <= p < s.pages && 0 <= i < |pages[p]|
      ensures s.base <= pages[p][i] && SegmentPage(s.base, s.model, s.pages, pages[p][i]) == p
    {
      assert OnPage(s.base, model, s.pages, p, pages[p]);
    }
  }

  lemma RestSorted(s: Segment, b: seq<Rec>, rs: seq<Rec>)
    requires s.records + b == rs && SortedRecords(rs)
    ensures SortedRecords(b + []) && AllRecords([s]) + (b + []) == rs
  {
    AllRecordsOne(s);
    assert b + [] == b;
    forall i | 0 <= i < |b|
      ensures b[i] == rs[|s.records| + i]
    {
    }
  }

  /** The next record of the dataset comes after the last one held. */
  lemma LastOffered(out: seq<Rec>, held: seq<Rec>, head: seq<Rec>, dataset: seq<Rec>, i: nat)
    requires i < |dataset| && SortedRecords(dataset) && out + held == head + dataset[..i]
    requires |head| > 0 ==> After(head, dataset[0])
    ensures After(held, dataset[i])
  {
    if |held| > 0 {
      var all := head + dataset[..i];
      assert (out + held)[|out| + |held| - 1] == held[|held| - 1];
      if i > 0 {
        assert all[|all| - 1] == dataset[i - 1];
      } else {
        assert all == head;
      }
    }
  }

  /** What is left after a cut stays sorted with the new record behind it. */
  lemma CutRest(s: Segment, held: seq<Rec>, rs: seq<Rec>, record: Rec)
    requires s.records + held == rs && SortedRecords(rs + [record])
    ensures SortedRecords(held + [record])
    ensures AllRecords([s]) + (held + [record]) == rs + [record]
  {
    AllRecordsOne(s);
    var all, k := rs + [record], |s.records|;
    forall i | 0 <= i < |held + [record]|
      ensures (held + [record])[i] == all[k + i]
    {
    }
  }

  /** The last record held is the last one offered. */
  lemma LastHeld(out: seq<Rec>, held: seq<Rec>, done: seq<Rec>, leftover: seq<Rec>, i: nat)
    requires i < |leftover| && SortedRecords(leftover) && (i > 0 ==> |held| > 0) && |held| <= i
    requires out + held == done + leftover[..i]
    ensures After(held, leftover[i])
  {
    if |held| > 0 {
      var all := done + leftover[..i];
      assert (out + held)[|out| + |held| - 1] == held[|held| - 1];
      assert all[|all| - 1] == leftover[i - 1];
    }
  }

  lemma OfferedNext(segments: seq<Segment>, more: seq<Segment>, before: seq<Rec>, held: seq<Rec>,
                    done: seq<Rec>, leftover: seq<Rec>, i: nat)
    requires i < |leftover| && AllRecords(segments) + before == done + leftover[..i]
    requires AllRecords(more) + held == before + [leftover[i]]
    ensures AllRecords(segments + more) + held == done + leftover[..i + 1]
  {
    AllRecordsConcat(segments, more);
    var a, b, m, r := AllRecords(segments), before, AllRecords(more), leftover[i];
    assert (a + m) + held == a + (m + held);
    assert a + (b + [r]) == (a + b) + [r];
    assert leftover[..i + 1] == leftover[..i] + [r];
  }

  /** What the regression promises of its line. */
  ghost predicate GoodLine(line: Line, rs: seq<Rec>, epsilon: real) {
    && FromBase(rs) && Fits(line, PointsOf(rs), epsilon)
    && (|rs| >= 2 ==> line.slope > 0.0)
    && (|rs| == 1 ==> line == Line(0.0, 0.0))
  }

  /** What the greedy regression adds to that: the line is no steeper than the records are dense, and starts at the first. */
  ghost predicate Mild(line: Line) {
    line.slope <= 1.0 && line.At(0.0) < 1.0
  }

  /** The next record can be offered to the regression. */
  lemma TracksReady(b: Builder, rs: seq<Rec>, record: Rec)
    requires |rs| > 0 && FromBase(rs) && Tracks(b, PointsOf(rs)) && After(rs, record)
    ensures rs[0].key <= record.key && b.Ready(Point((record.key - rs[0].key) as real, |rs| as real))
  {
    assert PointsOf(rs)[|rs| - 1].x == SegmentModel.Distance(rs, |rs| - 1);
  }

  /** Positions rise by one and integer keys by at least one. */
  lemma PointsSlow(rs: seq<Rec>)
    requires FromBase(rs) && SortedRecords(rs)
    ensures Slow(PointsOf(rs))
  {
    var ps := PointsOf(rs);
    forall i, j | 0 <= i < j < |ps|
      ensures ps[j].y - ps[i].y <= ps[j].x - ps[i].x
    {
      KeysSpread(rs, i, j);
    }
  }

  lemma {:induction false} LineIsGood(b: Builder, rs: seq<Rec>, epsilon: real)
    requires FromBase(rs) && SortedRecords(rs) && |rs| > 0 && b.delta == epsilon && Tracks(b, PointsOf(rs))
    ensures b.Finish().Some? && GoodLine(b.Finish().value, rs, epsilon) && Mild(b.Finish().value)
  {
    PointsSlow(rs);
    FinishTracks(b, PointsOf(rs));
  }

  lemma SegmentSpread(line: Line, rs: seq<Rec>, epsilon: real, goal: nat, pages: nat, n: nat)
    requires GoodLine(line, rs, epsilon) && |rs| >= 2 && SortedRecords(rs) && goal > 0 && pages > 1 && epsilon > 0.0
    requires 0 < n && CutAt(line, rs, goal * pages, n) && (pages * goal) as real <= LastSize(line, rs)
    ensures FromBase(rs[..n])
    ensures Spread(Segment(rs[0].key, pages, rs[..n], Some(line.Rescale(goal as real))), goal, Ceiling(epsilon))
    ensures line.slope <= goal as real && line.At(0.0) < (2 * goal) as real ==> AllReached(line.Rescale(goal as real), pages)
  {
    if line.slope <= goal as real && line.At(0.0) < (2 * goal) as real {
      PagesReached(line, goal, pages);
    }
    FitsPredicts(line, rs, epsilon);
    PrefixModelled(line, rs, Ceiling(epsilon), goal, pages, n);
    ModelledSpread(line, rs[..n], Ceiling(epsilon), goal, pages);
  }

  lemma CutSides(line: Line, rs: seq<Rec>, bound: nat, mid: nat)
    requires FromBase(rs) && SortedRecords(rs) && line.slope > 0.0 && mid < |rs|
    ensures line.At(SegmentModel.Distance(rs, mid)) < bound as real ==>
              forall i | 0 <= i <= mid :: line.At(SegmentModel.Distance(rs, i)) < bound as real
    ensures line.At(SegmentModel.Distance(rs, mid)) >= bound as real ==>
              forall i | mid <= i < |rs| :: line.At(SegmentModel.Distance(rs, i)) >= bound as real
  {
    forall i | 0 <= i < mid
      ensures line.At(SegmentModel.Distance(rs, i)) <= line.At(SegmentModel.Distance(rs, mid))
    {
      AtMonotone(line, SegmentModel.Distance(rs, i), SegmentModel.Distance(rs, mid));
    }
    forall i | mid < i < |rs|
      ensures line.At(SegmentModel.Distance(rs, mid)) <= line.At(SegmentModel.Distance(rs, i))
    {
      AtMonotone(line, SegmentModel.Distance(rs, mid), SegmentModel.Distance(rs, i));
    }
  }
}
