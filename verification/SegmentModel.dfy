// What the segments of a builder look like, and how evenly their models spread the records over the pages.
module SegmentModel {
  import opened Bytes
  import opened Coding
  import opened Plr
  import opened KeyMapping

  datatype Rec = Rec(key: Key, value: Bytestring)

  /** A run of records, laid out on a number of pages by a linear model. */
  datatype Segment = Segment(base: Key, pages: nat, records: seq<Rec>, model: Option<Line>)

  ghost predicate SortedRecords(rs: seq<Rec>) {
    forall i, j | 0 <= i < j < |rs| :: rs[i].key < rs[j].key
  }

  function AllRecords(segments: seq<Segment>): seq<Rec> {
    if |segments| == 0 then [] else AllRecords(segments[..|segments| - 1]) + segments[|segments| - 1].records
  }

  lemma {:induction false} AllRecordsConcat(a: seq<Segment>, b: seq<Segment>)
    ensures AllRecords(a + b) == AllRecords(a) + AllRecords(b)
    decreases |b|
  {
    if |b| == 0 {
      assert a + b == a;
    } else {
      assert (a + b)[..|a + b| - 1] == a + b[..|b| - 1];
      AllRecordsConcat(a, b[..|b| - 1]);
    }
  }

  lemma AllRecordsOne(s: Segment)
    ensures AllRecords([s]) == s.records
  {
    assert [s][..0] == [];
  }

  // ------------------------------------------------------------ counting

  /** How far a record is from the base of its segment. */
  function Distance(rs: seq<Rec>, i: nat): real
    requires i < |rs| && rs[0].key <= rs[i].key
  {
    (rs[i].key - rs[0].key) as real
  }

  ghost predicate FromBase(rs: seq<Rec>) {
    forall i | 0 <= i < |rs| :: rs[0].key <= rs[i].key
  }

  /** The records that the model puts on a page. */
  function CountOn(base: Key, model: Line, pages: nat, page: nat, rs: seq<Rec>): nat
    requires pages > 0 && forall i | 0 <= i < |rs| :: base <= rs[i].key
  {
    if |rs| == 0 then 0
    else
      var m := |rs| - 1;
      CountOn(base, model, pages, page, rs[..m]) + (if PageForKey(base, model, pages, rs[m].key) == page then 1 else 0)
  }

  /** If exactly the positions from `lo` to `hi` are on the page, it has `hi - lo` records. */
  lemma {:induction false} CountSlice(base: Key, model: Line, pages: nat, page: nat, rs: seq<Rec>, lo: nat, hi: nat)
    requires pages > 0 && (forall i | 0 <= i < |rs| :: base <= rs[i].key) && lo <= hi <= |rs|
    requires forall i | 0 <= i < |rs| :: PageForKey(base, model, pages, rs[i].key) == page <==> lo <= i < hi
    ensures CountOn(base, model, pages, page, rs) == hi - lo
    decreases |rs|
  {
    if |rs| > 0 {
      var m := |rs| - 1;
      if hi == |rs| {
        if lo == |rs| {
          CountSlice(base, model, pages, page, rs[..m], m, m);
        } else {
          CountSlice(base, model, pages, page, rs[..m], lo, m);
        }
      } else {
        CountSlice(base, model, pages, page, rs[..m], lo, hi);
      }
    }
  }

  // ------------------------------------------------------------ where the model crosses

  /** The line predicts every record's position to within `e`. */
  ghost predicate Predicts(line: Line, rs: seq<Rec>, e: nat)
    requires FromBase(rs)
  {
    forall i | 0 <= i < |rs| :: i as real - e as real <= line.At(Distance(rs, i)) <= i as real + e as real
  }

  /** The records before `cut` are predicted below `bound` and the others are not. */
  ghost predicate CutAt(line: Line, rs: seq<Rec>, bound: nat, cut: nat)
    requires FromBase(rs)
  {
    && cut <= |rs|
    && (forall i | 0 <= i < cut :: line.At(Distance(rs, i)) < bound as real)
    && (forall i | cut <= i < |rs| :: line.At(Distance(rs, i)) >= bound as real)
  }

  /** The model crosses `bound` within `e` of that position. */
  lemma CutBounds(line: Line, rs: seq<Rec>, e: nat, bound: nat, cut: nat)
    requires FromBase(rs) && Predicts(line, rs, e) && CutAt(line, rs, bound, cut) && bound <= |rs| + e
    ensures bound - e <= cut <= bound + e
  {
    if cut < |rs| {
      assert bound as real <= line.At(Distance(rs, cut)) <= cut as real + e as real;
    }
    if cut > 0 {
      assert (cut - 1) as real - e as real <= line.At(Distance(rs, cut - 1)) < bound as real;
    }
  }

  /** There is such a cut for a rising line over sorted records. */
  lemma {:induction false} CutExists(line: Line, rs: seq<Rec>, bound: nat, n: nat) returns (cut: nat)
    requires FromBase(rs) && SortedRecords(rs) && line.slope > 0.0 && n <= |rs|
    requires forall i | n <= i < |rs| :: line.At(Distance(rs, i)) >= bound as real
    ensures CutAt(line, rs, bound, cut)
    decreases n
  {
    if n == 0 {
      cut := 0;
    } else if line.At(Distance(rs, n - 1)) >= bound as real {
      cut := CutExists(line, rs, bound, n - 1);
    } else {
      cut := n;
      forall i | 0 <= i < n
        ensures line.At(Distance(rs, i)) < bound as real
      {
        AtMonotone(line, Distance(rs, n - 1), Distance(rs, i));
      }
    }
  }

  // ------------------------------------------------------------ pages

  /** Rescaling by the records per page turns positions into pages. */
  lemma RescaleAt(line: Line, goal: nat, x: real, page: nat)
    requires goal > 0
    ensures line.Rescale(goal as real).At(x) >= page as real <==> line.At(x) >= (goal * page) as real
    ensures line.Rescale(goal as real).At(x) < page as real <==> line.At(x) < (goal * page) as real
    ensures line.Rescale(goal as real).slope > 0.0 <==> line.slope > 0.0
  {
    var g, m := goal as real, line.Rescale(goal as real);
    assert m.At(x) * g == (m.slope * g) * x + m.intercept * g == line.At(x);
    assert (goal * page) as real == page as real * g;
    ProductSign(g, m.At(x) - page as real);
    ProductSign(g, page as real - m.At(x));
    assert g * (m.At(x) - page as real) == line.At(x) - (goal * page) as real;
    assert g * (page as real - m.At(x)) == (goal * page) as real - line.At(x);
    ProductSign(g, -m.slope);
    assert g * -m.slope == -line.slope;
  }

  /** A record between the cuts for `page` and `page + 1` is on that page. */
  lemma PageOfCut(line: Line, rs: seq<Rec>, goal: nat, pages: nat, page: nat, lo: nat, hi: nat, i: nat)
    requires FromBase(rs) && goal > 0 && page < pages && i < |rs|
    requires page == 0 ==> lo == 0
    requires page > 0 ==> CutAt(line, rs, goal * page, lo)
    requires CutAt(line, rs, goal * (page + 1), hi)
    requires page == pages - 1 ==> hi == |rs|
    ensures PageForKey(rs[0].key, line.Rescale(goal as real), pages, rs[i].key) == page <==> lo <= i < hi
  {
    var m, x := line.Rescale(goal as real), rs[i].key - rs[0].key;
    assert line.At(Distance(rs, i)) == line.At(x as real);
    if page > 0 {
      RescaleAt(line, goal, x as real, page);
    }
    if page + 1 < pages {
      RescaleAt(line, goal, x as real, page + 1);
    }
  }

  /** The cut for a page, which is the start for the first one. */
  lemma {:induction false} PageStart(line: Line, rs: seq<Rec>, e: nat, goal: nat, page: nat) returns (lo: nat)
    requires FromBase(rs) && SortedRecords(rs) && line.slope > 0.0 && Predicts(line, rs, e)
    requires goal * page <= |rs| + e
    ensures page == 0 ==> lo == 0
    ensures page > 0 ==> CutAt(line, rs, goal * page, lo)
    ensures lo <= |rs| && goal * page - e <= lo <= goal * page + e
  {
    if page == 0 {
      lo := 0;
    } else {
      lo := CutExists(line, rs, goal * page, |rs|);
      CutBounds(line, rs, e, goal * page, lo);
    }
  }

  /** What a multi-page segment is built from: a line close to the records, which end where it reaches the last page's end. */
  ghost predicate Modelled(line: Line, rs: seq<Rec>, e: nat, goal: nat, pages: nat) {
    && goal > 0 && pages > 1 && |rs| > 0
    && FromBase(rs) && SortedRecords(rs) && line.slope > 0.0 && Predicts(line, rs, e)
    && CutAt(line, rs, goal * pages, |rs|) && goal * pages <= |rs| + e
  }

  /** Every page gets its goal of records, give or take twice the error. */
  lemma {:induction false} PageCount(line: Line, rs: seq<Rec>, e: nat, goal: nat, pages: nat, page: nat)
    requires Modelled(line, rs, e, goal, pages) && page < pages
    ensures goal - 2 * e <= CountOn(rs[0].key, line.Rescale(goal as real), pages, page, rs) <= goal + 2 * e
  {
    var m := line.Rescale(goal as real);
    GoalSteps(goal, page, pages);
    var lo := PageStart(line, rs, e, goal, page);
    var hi := PageStart(line, rs, e, goal, page + 1);
    if page == pages - 1 {
      hi := |rs|;
      CutBounds(line, rs, e, goal * pages, hi);
    }
    LowBeforeHigh(line, rs, goal, page, lo, hi);
    forall i | 0 <= i < |rs|
      ensures PageForKey(rs[0].key, m, pages, rs[i].key) == page <==> lo <= i < hi
    {
      PageOfCut(line, rs, goal, pages, page, lo, hi, i);
    }
    CountSlice(rs[0].key, m, pages, page, rs, lo, hi);
  }

  lemma GoalSteps(goal: nat, page: nat, pages: nat)
    requires page < pages
    ensures goal * page <= goal * (page + 1) <= goal * pages && goal * (page + 1) == goal * page + goal
  {
  }

  lemma LowBeforeHigh(line: Line, rs: seq<Rec>, goal: nat, page: nat, lo: nat, hi: nat)
    requires FromBase(rs) && lo <= |rs| && (page == 0 ==> lo == 0) && (page > 0 ==> CutAt(line, rs, goal * page, lo))
    requires CutAt(line, rs, goal * (page + 1), hi)
    ensures lo <= hi
  {
    GoalSteps(goal, page, page + 1);
    if hi < |rs| {
      assert line.At(Distance(rs, hi)) >= (goal * (page + 1)) as real >= (goal * page) as real;
    }
  }

  /** Keys are integers, so records are at least as far apart as their positions. */
  lemma {:induction false} KeysSpread(rs: seq<Rec>, i: nat, j: nat)
    requires SortedRecords(rs) && i <= j < |rs|
    ensures rs[j].key - rs[i].key >= j - i
    decreases j
  {
    if i < j {
      KeysSpread(rs, i, j - 1);
      assert rs[j - 1].key < rs[j].key;
    }
  }

  /** The first key at which a rising line is at or above `y`. */
  lemma FirstAbove(line: Line, y: real) returns (x: nat)
    requires line.slope > 0.0
    ensures line.At(x as real) >= y && (x > 0 ==> line.At((x - 1) as real) < y)
  {
    var at := line.Invert().At(y);
    x := if at <= 0.0 then 0 else if at.Floor as real == at then at.Floor else at.Floor + 1;
    InvertBound(line, x as real, y);
    if x > 0 {
      InvertBound(line, (x - 1) as real, y);
    }
  }

  lemma BelowNextPage(line: Line, goal: nat, page: nat, x: nat)
    requires line.slope <= goal as real && line.At(0.0) < (2 * goal) as real && page > 0
    requires line.At(x as real) >= (goal * page) as real && (x > 0 ==> line.At((x - 1) as real) < (goal * page) as real)
    ensures line.At(x as real) < (goal * (page + 1)) as real
  {
    assert goal * (page + 1) == goal * page + goal;
    if x == 0 {
      assert page > 1 ==> goal * page >= goal * 2;
    } else {
      assert line.At(x as real) == line.At((x - 1) as real) + line.slope;
    }
  }

  /** A line that rises by at most a page between neighbouring keys, and starts on the first two, passes over no page. */
  lemma PageIsReached(line: Line, goal: nat, pages: nat, page: nat)
    requires goal > 0 && 0.0 < line.slope <= goal as real && line.At(0.0) < (2 * goal) as real && 0 < page < pages
    ensures Reached(line.Rescale(goal as real), pages, page)
  {
    var x := FirstAbove(line, (goal * page) as real);
    BelowNextPage(line, goal, page, x);
    RescaleAt(line, goal, x as real, page);
    RescaleAt(line, goal, x as real, page + 1);
    assert Witness(line.Rescale(goal as real), pages, page, x);
  }
}
