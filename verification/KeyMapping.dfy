// How a segment's linear model maps keys to pages, and where the pages begin.
module KeyMapping {
  import opened Coding
  import opened Plr

  type Key = nat

  /** Conversion of a non-negative number to an integer; negative numbers count as zero. */
  function Truncate(v: real): nat {
    if v < 0.0 then 0 else v.Floor
  }

  function Min(a: nat, b: nat): nat {
    if a < b then a else b
  }

  function PageAt(model: Line, pages: nat, x: nat): (page: nat)
    requires pages > 0
    ensures page < pages
  {
    Min(pages - 1, Truncate(model.At(x as real)))
  }

  function PageForKey(base: Key, model: Line, pages: nat, key: Key): (page: nat)
    requires pages > 0 && base <= key
    ensures page < pages
  {
    PageAt(model, pages, key - base)
  }

  // ------------------------------------------------------------ rising lines

  lemma AtMonotone(model: Line, a: real, b: real)
    requires model.slope > 0.0
    ensures a <= b <==> model.At(a) <= model.At(b)
  {
    assert model.At(b) - model.At(a) == model.slope * (b - a);
    ProductSign(model.slope, b - a);
  }

  lemma ProductSign(s: real, d: real)
    requires s > 0.0
    ensures d >= 0.0 <==> s * d >= 0.0
  {
  }

  /** A prediction is at least `y` from where the inverse says on. */
  lemma InvertBound(model: Line, x: real, y: real)
    requires model.slope > 0.0
    ensures model.At(x) >= y <==> x >= model.Invert().At(y)
    ensures model.At(x) <= y <==> x <= model.Invert().At(y)
  {
    AtMonotone(model, model.Invert().At(y), x);
    AtMonotone(model, x, model.Invert().At(y));
  }

  lemma PageMonotone(model: Line, pages: nat, a: nat, b: nat)
    requires model.slope > 0.0 && pages > 0 && a <= b
    ensures PageAt(model, pages, a) <= PageAt(model, pages, b)
  {
    AtMonotone(model, a as real, b as real);
  }

  // ------------------------------------------------------------ the first key of a page

  /** The key at distance `x` from the base shows that the page can be found. */
  ghost predicate Witness(model: Line, pages: nat, page: nat, x: nat) {
    var v := model.At(x as real);
    v >= page as real && (v < page as real + 1.0 || (page == pages - 1 && (x == 0 || v <= page as real + 1.0)))
  }

  /** Some key falls on the page; on the last page, one that the model does not send beyond it. */
  ghost predicate Reached(model: Line, pages: nat, page: nat) {
    exists x: nat :: Witness(model, pages, page, x)
  }

  /** `x` is the smallest distance from the base that maps to the page. */
  ghost predicate IsFirst(model: Line, pages: nat, page: nat, x: nat)
    requires pages > 0
  {
    PageAt(model, pages, x) == page && NoneBefore(model, pages, page, x)
  }

  /** Everything nearer to the base than `x` is on earlier pages. */
  ghost predicate NoneBefore(model: Line, pages: nat, page: nat, x: nat)
    requires pages > 0
  {
    forall y | 0 <= y < x :: PageAt(model, pages, y) < page
  }

  lemma NoneUpTo(model: Line, pages: nat, page: nat, x: nat)
    requires model.slope > 0.0 && pages > 0 && PageAt(model, pages, x) < page
    ensures NoneBefore(model, pages, page, x + 1)
  {
    forall y | 0 <= y <= x
      ensures PageAt(model, pages, y) < page
    {
      PageMonotone(model, pages, y, x);
    }
  }

  datatype Bounds = Bounds(lower: nat, upper: nat)

  /** The stretch to search, from the inverse of the model. */
  function SearchBounds(model: Line, inverse: Line, pages: nat, page: nat): Bounds
    requires 1 <= page < pages
  {
    var candidate := Truncate(inverse.At(page as real));
    if PageAt(model, pages, candidate) >= page
    then Bounds(Truncate(inverse.At(page as real - 1.0)), candidate)
    else Bounds(candidate, Truncate(inverse.At(page as real + 1.0)))
  }

  /** Nothing before the stretch is on the page or after it, and the stretch is not inverted. */
  lemma BeforeSearch(model: Line, pages: nat, page: nat, x: nat)
    requires model.slope > 0.0 && 1 <= page < pages
    ensures var b := SearchBounds(model, model.Invert(), pages, page);
            b.lower <= b.upper && (x < b.lower ==> PageAt(model, pages, x) < page)
  {
    var b := SearchBounds(model, model.Invert(), pages, page);
    var v := page as real;
    if PageAt(model, pages, Truncate(model.Invert().At(v))) >= page {
      InvertBound(model, x as real, v - 1.0);
    } else if x < b.lower {
      PageMonotone(model, pages, x, b.lower);
    }
  }

  lemma NoneBeforeSearch(model: Line, pages: nat, page: nat)
    requires model.slope > 0.0 && 1 <= page < pages
    ensures var b := SearchBounds(model, model.Invert(), pages, page);
            b.lower <= b.upper && NoneBefore(model, pages, page, b.lower)
  {
    var b := SearchBounds(model, model.Invert(), pages, page);
    BeforeSearch(model, pages, page, 0);
    forall y | 0 <= y < b.lower
      ensures PageAt(model, pages, y) < page
    {
      BeforeSearch(model, pages, page, y);
    }
  }

  /** If the page is reached, the end of the stretch is on it or after it. */
  lemma EndOfSearch(model: Line, pages: nat, page: nat, x: nat)
    requires model.slope > 0.0 && 1 <= page < pages && Witness(model, pages, page, x)
    ensures PageAt(model, pages, SearchBounds(model, model.Invert(), pages, page).upper) >= page
  {
    var b := SearchBounds(model, model.Invert(), pages, page);
    var candidate := Truncate(model.Invert().At(page as real));
    if PageAt(model, pages, candidate) < page {
      if x == 0 {
        PageMonotone(model, pages, 0, candidate);
        assert false;
      }
      InvertBound(model, x as real, page as real + 1.0);
      PageMonotone(model, pages, x, b.upper);
    }
  }

  /** If the end of the stretch is on the page or after it, the last page is reached within the stretch. */
  lemma SearchedWitness(model: Line, pages: nat, page: nat, x: nat)
    requires model.slope > 0.0 && 1 <= page < pages && PageAt(model, pages, x) == page
    requires x <= SearchBounds(model, model.Invert(), pages, page).upper
    ensures Witness(model, pages, page, x)
  {
    var v := page as real;
    var candidate := Truncate(model.Invert().At(v));
    if page == pages - 1 && x > 0 {
      InvertBound(model, x as real, v + 1.0);
    }
  }

  /** The first key at or after the page, once the stretch ends there, is the first key of the page if it is reached. */
  lemma ReachedFirst(model: Line, pages: nat, page: nat, x: nat, r: nat)
    requires model.slope > 0.0 && 1 <= page < pages && Witness(model, pages, page, x)
    requires PageAt(model, pages, r) >= page && NoneBefore(model, pages, page, r)
    ensures IsFirst(model, pages, page, r)
  {
    assert r <= x;
    AtMonotone(model, r as real, x as real);
    PageMonotone(model, pages, r, x);
  }

  /** The first key of a page, by binary search: right exactly when the page is reached. */
  method FindLowerBoundary(base: Key, model: Line, pages: nat, inverse: Line, page: nat) returns (key: Key)
    requires model.slope > 0.0 && inverse == model.Invert() && 1 <= page < pages
    ensures base <= key
    ensures IsFirst(model, pages, page, key - base) <==> Reached(model, pages, page)
  {
    var b := SearchBounds(model, inverse, pages, page);
    var lo: nat, hi: nat := b.lower, b.upper;
    NoneBeforeSearch(model, pages, page);
    while lo < hi
      invariant lo <= hi <= b.upper
      invariant NoneBefore(model, pages, page, lo)
      invariant hi < b.upper ==> PageAt(model, pages, hi) >= page
      decreases hi - lo
    {
      var mid := lo + (hi - lo) / 2;
      if PageForKey(base, model, pages, base + mid) < page {
        NoneUpTo(model, pages, page, mid);
        lo := mid + 1;
      } else {
        hi := mid;
      }
    }
    key := base + lo;
    FoundIffReached(model, pages, page, lo);
  }

  lemma FoundIffReached(model: Line, pages: nat, page: nat, r: nat)
    requires model.slope > 0.0 && 1 <= page < pages && r <= SearchBounds(model, model.Invert(), pages, page).upper
    requires NoneBefore(model, pages, page, r)
    requires r < SearchBounds(model, model.Invert(), pages, page).upper ==> PageAt(model, pages, r) >= page
    ensures IsFirst(model, pages, page, r) <==> Reached(model, pages, page)
  {
    if Reached(model, pages, page) {
      var x: nat :| Witness(model, pages, page, x);
      EndOfSearch(model, pages, page, x);
      ReachedFirst(model, pages, page, x, r);
    }
    if IsFirst(model, pages, page, r) {
      SearchedWitness(model, pages, page, r);
    }
  }

  /** The stretch is not empty, as the source asserts, if the page is reached and the base key is before it. */
  lemma SearchNotEmpty(model: Line, pages: nat, page: nat)
    requires model.slope > 0.0 && 1 <= page < pages && Reached(model, pages, page) && PageAt(model, pages, 0) < page
    ensures var b := SearchBounds(model, model.Invert(), pages, page); b.lower < b.upper
  {
    var x: nat :| Witness(model, pages, page, x);
    var b := SearchBounds(model, model.Invert(), pages, page);
    EndOfSearch(model, pages, page, x);
    var v := page as real;
    var candidate := Truncate(model.Invert().At(v));
    InvertBound(model, 0.0, v);
    if PageAt(model, pages, candidate) >= page {
      InvertBound(model, candidate as real, v);
      AtMonotone(model, model.Invert().At(v), model.Invert().At(v - 1.0));
    }
  }

  /** A steep model can jump over the last page's own range: the search then ends before the page's first key. */
  lemma SteepModelMissesLastPage()
    ensures var model := Line(2.0, 0.5);
            && IsFirst(model, 2, 1, 1) && !Reached(model, 2, 1)
            && SearchBounds(model, model.Invert(), 2, 1) == Bounds(0, 0) && PageAt(model, 2, 0) == 0
  {
    var model := Line(2.0, 0.5);
    assert model.Invert() == Line(0.5, -0.25);
    assert Line(0.5, -0.25).At(1.0) == 0.25 && Line(0.5, -0.25).At(2.0) == 0.75;
    assert Truncate(0.25) == 0 && Truncate(0.75) == 0;
    assert model.At(0.0) == 0.5 && model.At(1.0) == 2.5;
    assert Truncate(0.5) == 0 && Truncate(2.5) == 2;
    forall x: nat
      ensures !Witness(model, 2, 1, x)
    {
    }
  }

  // ------------------------------------------------------------ the pages of a segment

  /** Every page but the first can be found. */
  ghost predicate AllReached(model: Line, pages: nat) {
    model.slope > 0.0 && forall page | 1 <= page < pages :: Reached(model, pages, page)
  }

  lemma FromFirst(model: Line, pages: nat, page: nat, first: nat, x: nat)
    requires model.slope > 0.0 && pages > 0 && IsFirst(model, pages, page, first)
    ensures PageAt(model, pages, x) >= page <==> x >= first
  {
    if x >= first {
      PageMonotone(model, pages, first, x);
    }
  }

  /** The boundaries are the first keys of the pages. */
  ghost predicate AreBoundaries(base: Key, model: Line, pages: nat, bounds: seq<Key>) {
    && pages > 0 && |bounds| == pages && bounds[0] == base
    && forall page | 1 <= page < pages :: bounds[page] >= base && IsFirst(model, pages, page, bounds[page] - base)
  }

  method ComputePageLowerBoundaries(base: Key, model: Line, pages: nat) returns (bounds: seq<Key>)
    requires pages > 0 && (pages > 1 ==> AllReached(model, pages))
    ensures AreBoundaries(base, model, pages, bounds)
  {
    bounds := [base];
    if pages == 1 {
      return;
    }
    var inverse := model.Invert();
    for page := 1 to pages
      invariant |bounds| == page && bounds[0] == base
      invariant forall p | 1 <= p < page :: bounds[p] >= base && IsFirst(model, pages, p, bounds[p] - base)
    {
      assert Reached(model, pages, page);
      var key := FindLowerBoundary(base, model, pages, inverse, page);
      bounds := bounds + [key];
    }
  }

  /** A key is on the page whose boundaries enclose it. */
  lemma BetweenBoundaries(base: Key, model: Line, pages: nat, bounds: seq<Key>, page: nat, key: Key)
    requires AreBoundaries(base, model, pages, bounds) && page < pages && base <= key
    requires pages > 1 ==> model.slope > 0.0
    ensures PageForKey(base, model, pages, key) == page
            <==> bounds[page] <= key && (page + 1 < pages ==> key < bounds[page + 1])
  {
    if page > 0 {
      FromFirst(model, pages, page, bounds[page] - base, key - base);
    }
    if page + 1 < pages {
      FromFirst(model, pages, page + 1, bounds[page + 1] - base, key - base);
    }
  }

  ghost predicate AscendingKeys(keys: seq<Key>) {
    forall i, j | 0 <= i < j < |keys| :: keys[i] < keys[j]
  }

  /** The first position from `start` on whose key is not below `bound`. */
  method CutOff(keys: seq<Key>, start: nat, bound: Key) returns (cut: nat)
    requires AscendingKeys(keys) && start <= |keys|
    ensures start <= cut <= |keys|
    ensures forall i | start <= i < cut :: keys[i] < bound
    ensures forall i | cut <= i < |keys| :: keys[i] >= bound
  {
    var lo, hi := start, |keys|;
    while lo < hi
      invariant start <= lo <= hi <= |keys|
      invariant forall i | start <= i < lo :: keys[i] < bound
      invariant forall i | hi <= i < |keys| :: keys[i] >= bound
      decreases hi - lo
    {
      var mid := lo + (hi - lo) / 2;
      if keys[mid] < bound {
        lo := mid + 1;
      } else {
        hi := mid;
      }
    }
    cut := lo;
  }

  function Flatten<T>(groups: seq<seq<T>>): seq<T> {
    if |groups| == 0 then [] else Flatten(groups[..|groups| - 1]) + groups[|groups| - 1]
  }

  lemma FlattenNext<T>(groups: seq<seq<T>>, g: seq<T>)
    ensures Flatten(groups + [g]) == Flatten(groups) + g
  {
    assert (groups + [g])[..|groups|] == groups;
  }

  ghost predicate OnPage(base: Key, model: Line, pages: nat, page: nat, keys: seq<Key>) {
    pages > 0 && forall i | 0 <= i < |keys| :: base <= keys[i] && PageForKey(base, model, pages, keys[i]) == page
  }

  /** The keys between two boundaries are the keys of the page. */
  lemma SliceOnPage(base: Key, model: Line, pages: nat, bounds: seq<Key>, page: nat, keys: seq<Key>)
    requires AreBoundaries(base, model, pages, bounds) && page < pages && (pages > 1 ==> model.slope > 0.0)
    requires forall i | 0 <= i < |keys| :: base <= keys[i] && bounds[page] <= keys[i]
    requires page + 1 < pages ==> forall i | 0 <= i < |keys| :: keys[i] < bounds[page + 1]
    ensures OnPage(base, model, pages, page, keys)
  {
    forall i | 0 <= i < |keys|
      ensures PageForKey(base, model, pages, keys[i]) == page
    {
      BetweenBoundaries(base, model, pages, bounds, page, keys[i]);
    }
  }

  /** Deals the records of a segment out to its pages; every record lands on the page that lookups go to. */
  method PlaceRecords(base: Key, model: Line, pages: nat, keys: seq<Key>) returns (groups: seq<seq<Key>>)
    requires pages > 0 && (pages > 1 ==> AllReached(model, pages))
    requires AscendingKeys(keys) && forall i | 0 <= i < |keys| :: base <= keys[i]
    ensures |groups| == pages && Flatten(groups) == keys
    ensures forall page | 0 <= page < pages :: OnPage(base, model, pages, page, groups[page])
  {
    var bounds := ComputePageLowerBoundaries(base, model, pages);
    var start := 0;
    groups := [];
    for page := 0 to pages - 1
      invariant start <= |keys| && |groups| == page && Flatten(groups) == keys[..start]
      invariant forall i | start <= i < |keys| :: bounds[page] <= keys[i]
      invariant forall p | 0 <= p < page :: OnPage(base, model, pages, p, groups[p])
    {
      var cut := CutOff(keys, start, bounds[page + 1]);
      var group := keys[start..cut];
      SliceOnPage(base, model, pages, bounds, page, group);
      FlattenNext(groups, group);
      assert keys[..cut] == keys[..start] + group;
      groups := groups + [group];
      start := cut;
    }
    var rest := keys[start..];
    SliceOnPage(base, model, pages, bounds, pages - 1, rest);
    FlattenNext(groups, rest);
    assert keys == keys[..start] + rest;
    groups := groups + [rest];
  }

  /** The page of a segment that a key is on; a single page needs no model. */
  function SegmentPage(base: Key, model: Option<Line>, pages: nat, key: Key): (page: nat)
    requires pages > 0 && base <= key && (pages > 1 ==> model.Some?)
    ensures page < pages
  {
    if pages == 1 then 0 else PageForKey(base, model.value, pages, key)
  }

  /** The keys of the page that `key` is on, within a segment from `base` up to `limit`. */
  method GetPageBoundsFor(base: Key, limit: Key, model: Option<Line>, pages: nat, key: Key) returns (lower: Key, upper: Key)
    requires pages > 0 && base <= key < limit && (pages > 1 ==> model.Some? && AllReached(model.value, pages))
    ensures forall k | base <= k < limit ::
              SegmentPage(base, model, pages, k) == SegmentPage(base, model, pages, key) <==> lower <= k < upper
  {
    var page := SegmentPage(base, model, pages, key);
    lower, upper := base, limit;
    if page > 0 {
      assert Reached(model.value, pages, page);
      lower := FindLowerBoundary(base, model.value, pages, model.value.Invert(), page);
    }
    if page < pages - 1 {
      assert Reached(model.value, pages, page + 1);
      upper := FindLowerBoundary(base, model.value, pages, model.value.Invert(), page + 1);
    }
    forall k | base <= k < limit
      ensures SegmentPage(base, model, pages, k) == page <==> lower <= k < upper
    {
      if page > 0 {
        FromFirst(model.value, pages, page, lower - base, k - base);
      }
      if page < pages - 1 {
        FromFirst(model.value, pages, page + 1, upper - base, k - base);
      }
    }
  }
}
