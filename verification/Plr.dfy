// Greedy piecewise linear regression with a bounded error, over exact reals.
module Plr {
  import opened Coding

  datatype Point = Point(x: real, y: real) {
    function AddDelta(d: real): Point {
      Point(x, y + d)
    }
  }

  datatype Line = Line(slope: real, intercept: real) {
    function At(x: real): real {
      slope * x + intercept
    }

    /** Divides the output range. */
    function Rescale(factor: real): Line
      requires factor != 0.0
    {
      Line(slope / factor, intercept / factor)
    }

    function Invert(): Line
      requires slope != 0.0
    {
      Line(1.0 / slope, -intercept / slope)
    }
  }

  function FromSlopeAndPoint(slope: real, p: Point): Line {
    Line(slope, p.y - slope * p.x)
  }

  function SlopeOf(p: Point, q: Point): real
    requires p.x != q.x
  {
    (q.y - p.y) / (q.x - p.x)
  }

  function FromTwoPoints(p: Point, q: Point): Line
    requires p.x != q.x
  {
    FromSlopeAndPoint(SlopeOf(p, q), p)
  }

  function Intersect(a: Line, b: Line): Option<Point> {
    if a.slope == b.slope then None
    else
      var x := (b.intercept - a.intercept) / (a.slope - b.slope);
      Some(Point(x, a.At(x)))
  }

  function Abs(r: real): real {
    if r < 0.0 then -r else r
  }

  /** The line misses no point by more than `delta`. */
  ghost predicate Fits(line: Line, points: seq<Point>, delta: real) {
    forall i | 0 <= i < |points| :: Abs(line.At(points[i].x) - points[i].y) <= delta
  }

  // ------------------------------------------------------------ arithmetic

  lemma Quotient(a: real, b: real)
    requires b != 0.0
    ensures (a / b) * b == a
  {
  }

  lemma Scale(a: real, b: real, d: real)
    ensures (a + b) * d == a * d + b * d
    ensures (a - b) * d == a * d - b * d
    ensures (a / 2.0) * d == a * d / 2.0
  {
  }

  // ------------------------------------------------------------ lines through the apex

  /** What the line with `slope` through `apex` predicts at `x`. */
  function Predict(apex: Point, slope: real, x: real): real {
    apex.y + slope * (x - apex.x)
  }

  /** How far a point is above what a slope predicts. */
  function Residual(apex: Point, slope: real, p: Point): real {
    (p.y - apex.y) - slope * (p.x - apex.x)
  }

  lemma PredictIsLine(apex: Point, slope: real, x: real)
    ensures FromSlopeAndPoint(slope, apex).At(x) == Predict(apex, slope, x)
  {
    assert slope * (x - apex.x) == slope * x - slope * apex.x;
  }

  /** The prediction at the point that a slope was computed from. */
  lemma PredictThrough(apex: Point, p: Point)
    requires apex.x != p.x
    ensures Predict(apex, SlopeOf(apex, p), p.x) == p.y
  {
    Quotient(p.y - apex.y, p.x - apex.x);
  }

  lemma PredictMonotone(apex: Point, a: real, b: real, x: real)
    requires a <= b
    ensures x >= apex.x ==> Predict(apex, a, x) <= Predict(apex, b, x)
    ensures x <= apex.x ==> Predict(apex, b, x) <= Predict(apex, a, x)
  {
    var d := x - apex.x;
    assert (b - a) * d == b * d - a * d;
    assert d >= 0.0 ==> (b - a) * d >= 0.0;
    assert d <= 0.0 ==> (b - a) * d <= 0.0;
  }

  /** To the right of the apex a larger prediction means a larger slope. */
  lemma PredictReflects(apex: Point, a: real, b: real, x: real)
    requires x > apex.x && Predict(apex, a, x) <= Predict(apex, b, x)
    ensures a <= b
  {
    var d := x - apex.x;
    assert (b - a) * d == b * d - a * d >= 0.0;
    SignOfFactor(b - a, d);
  }

  lemma SignOfFactor(a: real, d: real)
    requires d > 0.0 && a * d >= 0.0
    ensures a >= 0.0
  {
  }

  ghost predicate Close(apex: Point, slope: real, p: Point, delta: real) {
    Abs(Predict(apex, slope, p.x) - p.y) <= delta
  }

  lemma CloseBetween(apex: Point, bot: real, slope: real, top: real, p: Point, delta: real)
    requires bot <= slope <= top && Close(apex, bot, p, delta) && Close(apex, top, p, delta)
    ensures Close(apex, slope, p, delta)
  {
    PredictMonotone(apex, bot, slope, p.x);
    PredictMonotone(apex, slope, top, p.x);
  }

  // ------------------------------------------------------------ the cone of a segment

  /** The lines through `apex` with slopes from `bot` to `top`, and the last point absorbed. */
  datatype Segmenter = Segmenter(apex: Point, last: Point, delta: real, startX: real, bot: real, top: real) {

    /** Takes a point in and narrows the cone, or gives up and returns the line so far. */
    function Offer(p: Point): (r: (Segmenter, Option<Line>))
      requires p.x != apex.x
    {
      if FromSlopeAndPoint(bot, apex).At(p.x) > p.y || FromSlopeAndPoint(top, apex).At(p.x) < p.y then
        (this, Some(Finish()))
      else
        (this.(last := p, bot := NewBot(p), top := NewTop(p)), None)
    }

    /** The bottom slope after a point was taken in. */
    function NewBot(p: Point): real
      requires p.x != apex.x
    {
      if Abs(Residual(apex, bot, p)) > delta then SlopeOf(apex, p.AddDelta(-delta)) else bot
    }

    function NewTop(p: Point): real
      requires p.x != apex.x
    {
      if Abs(Residual(apex, top, p)) > delta then SlopeOf(apex, p.AddDelta(delta)) else top
    }

    /** The line in the middle of the cone. */
    function Finish(): Line {
      FromSlopeAndPoint((bot + top) / 2.0, apex)
    }
  }

  /** The extreme lines that stay within `delta` of both points. */
  function Start(s1: Point, s2: Point, delta: real): (seg: Segmenter)
    requires s1.x < s2.x && delta > 0.0
    ensures seg.apex == Point((s1.x + s2.x) / 2.0, (s1.y + s2.y) / 2.0)
    ensures seg.last == s2 && seg.delta == delta
    ensures seg.bot == SlopeOf(s1.AddDelta(delta), s2.AddDelta(-delta))
    ensures seg.top == SlopeOf(s1.AddDelta(-delta), s2.AddDelta(delta))
  {
    var bot := SlopeOf(s1.AddDelta(delta), s2.AddDelta(-delta));
    var top := SlopeOf(s1.AddDelta(-delta), s2.AddDelta(delta));
    var l1 := FromTwoPoints(s1.AddDelta(delta), s2.AddDelta(-delta));
    var l2 := FromTwoPoints(s1.AddDelta(-delta), s2.AddDelta(delta));
    ApexIsMiddle(s1, s2, delta);
    Segmenter(Intersect(l1, l2).value, s2, delta, s1.x, bot, top)
  }

  lemma Cancel(a: real, b: real, k: real)
    requires k != 0.0 && a * k == b * k
    ensures a == b
  {
    assert (a - b) * k == 0.0;
  }

  lemma StartSlopes(s1: Point, s2: Point, delta: real)
    requires s1.x < s2.x && delta > 0.0
    ensures SlopeOf(s1.AddDelta(delta), s2.AddDelta(-delta)) * (s2.x - s1.x) == s2.y - s1.y - 2.0 * delta
    ensures SlopeOf(s1.AddDelta(-delta), s2.AddDelta(delta)) * (s2.x - s1.x) == s2.y - s1.y + 2.0 * delta
  {
    Quotient(s2.AddDelta(-delta).y - s1.AddDelta(delta).y, s2.x - s1.x);
    Quotient(s2.AddDelta(delta).y - s1.AddDelta(-delta).y, s2.x - s1.x);
  }

  /** Lines with different slopes meet where they agree. */
  lemma IntersectAt(a: Line, b: Line, x: real)
    requires a.slope != b.slope && a.At(x) == b.At(x)
    ensures Intersect(a, b) == Some(Point(x, a.At(x)))
  {
    var k, n := a.slope - b.slope, b.intercept - a.intercept;
    assert x * k == n by {
      assert (a.slope - b.slope) * x == a.slope * x - b.slope * x;
    }
    Quotient(n, k);
    Cancel(n / k, x, k);
  }

  lemma HalfWay(p: Point, slope: real, h: real, x: real)
    requires x - p.x == h / 2.0
    ensures Predict(p, slope, x) == p.y + slope * h / 2.0
  {
  }

  lemma ApexIsMiddle(s1: Point, s2: Point, delta: real)
    requires s1.x < s2.x && delta > 0.0
    ensures Intersect(FromTwoPoints(s1.AddDelta(delta), s2.AddDelta(-delta)),
                      FromTwoPoints(s1.AddDelta(-delta), s2.AddDelta(delta)))
            == Some(Point((s1.x + s2.x) / 2.0, (s1.y + s2.y) / 2.0))
  {
    var p, q := s1.AddDelta(delta), s1.AddDelta(-delta);
    var b, t := SlopeOf(p, s2.AddDelta(-delta)), SlopeOf(q, s2.AddDelta(delta));
    var h, x := s2.x - s1.x, (s1.x + s2.x) / 2.0;
    StartSlopes(s1, s2, delta);
    assert x - s1.x == h / 2.0;
    PredictIsLine(p, b, x);
    PredictIsLine(q, t, x);
    HalfWay(p, b, h, x);
    HalfWay(q, t, h, x);
    var l1 := FromSlopeAndPoint(b, p);
    assert l1.At(x) == (s1.y + s2.y) / 2.0;
    assert l1 == FromTwoPoints(p, s2.AddDelta(-delta));
    IntersectAt(FromSlopeAndPoint(b, p), FromSlopeAndPoint(t, q), x);
  }

  // ------------------------------------------------------------ the error bound

  /** Every line of the cone stays within `delta` of every point taken in. */
  ghost predicate Covers(c: Segmenter, points: seq<Point>) {
    && |points| >= 2 && c.delta > 0.0 && c.bot <= c.top
    && c.last == points[|points| - 1] && c.apex.x < c.last.x
    && (forall i | 0 <= i < |points| :: CloseToBoth(c, points[i]))
  }

  ghost predicate CloseToBoth(c: Segmenter, p: Point) {
    Close(c.apex, c.bot, p, c.delta) && Close(c.apex, c.top, p, c.delta)
  }

  /** The outer lines pass the second point at the distance of the error. */
  lemma {:induction false} StartRight(s1: Point, s2: Point, delta: real)
    requires s1.x < s2.x && delta > 0.0
    ensures var c := Start(s1, s2, delta);
            Predict(c.apex, c.bot, s2.x) == s2.y - delta && Predict(c.apex, c.top, s2.x) == s2.y + delta
  {
    var c, h := Start(s1, s2, delta), s2.x - s1.x;
    StartSlopes(s1, s2, delta);
    HalfWay(c.apex, c.bot, h, s2.x);
    HalfWay(c.apex, c.top, h, s2.x);
  }

  lemma Opposite(slope: real, h: real)
    ensures slope * -h == -(slope * h)
  {
  }

  lemma {:induction false} StartLeft(s1: Point, s2: Point, delta: real)
    requires s1.x < s2.x && delta > 0.0
    ensures var c := Start(s1, s2, delta);
            Predict(c.apex, c.bot, s1.x) == s1.y + delta && Predict(c.apex, c.top, s1.x) == s1.y - delta
  {
    var c, h := Start(s1, s2, delta), s2.x - s1.x;
    StartSlopes(s1, s2, delta);
    HalfWay(c.apex, c.bot, -h, s1.x);
    HalfWay(c.apex, c.top, -h, s1.x);
    Opposite(c.bot, h);
    Opposite(c.top, h);
  }

  lemma {:induction false} StartClose(s1: Point, s2: Point, delta: real)
    requires s1.x < s2.x && delta > 0.0
    ensures var c := Start(s1, s2, delta);
            && c.bot <= c.top && CloseToBoth(c, s1) && CloseToBoth(c, s2)
            && Predict(c.apex, c.top, s2.x) == s2.y + delta
  {
    var c := Start(s1, s2, delta);
    StartLeft(s1, s2, delta);
    StartRight(s1, s2, delta);
    PredictReflects(c.apex, c.bot, c.top, s2.x);
  }

  lemma StartCovers(s1: Point, s2: Point, delta: real)
    requires s1.x < s2.x && delta > 0.0
    ensures Covers(Start(s1, s2, delta), [s1, s2])
  {
    StartClose(s1, s2, delta);
  }

  /** A narrower cone with the same apex stays close to what the wider one was close to. */
  lemma NarrowerClose(c: Segmenter, d: Segmenter, p: Point)
    requires d.apex == c.apex && d.delta == c.delta && c.bot <= d.bot <= d.top <= c.top && CloseToBoth(c, p)
    ensures CloseToBoth(d, p)
  {
    CloseBetween(c.apex, c.bot, d.bot, c.top, p, c.delta);
    CloseBetween(c.apex, c.bot, d.top, c.top, p, c.delta);
  }

  lemma ResidualIs(apex: Point, slope: real, p: Point)
    ensures Residual(apex, slope, p) == p.y - Predict(apex, slope, p.x)
  {
  }

  /** A point is taken in if it lies between the outer lines. */
  lemma AcceptsIff(c: Segmenter, p: Point)
    requires c.apex.x != p.x
    ensures c.Offer(p).1.None? <==> Predict(c.apex, c.bot, p.x) <= p.y <= Predict(c.apex, c.top, p.x)
    ensures c.Offer(p).1.None? ==> c.Offer(p).0 == Segmenter(c.apex, p, c.delta, c.startX, c.NewBot(p), c.NewTop(p))
  {
    PredictIsLine(c.apex, c.bot, p.x);
    PredictIsLine(c.apex, c.top, p.x);
  }

  /** Where the outer lines go after a point: they stay, or pass the point at the distance of the error. */
  lemma NewBotPredicts(c: Segmenter, p: Point)
    requires c.apex.x != p.x
    ensures var low := Predict(c.apex, c.bot, p.x);
            if Abs(p.y - low) > c.delta then Predict(c.apex, c.NewBot(p), p.x) == p.y - c.delta else c.NewBot(p) == c.bot
  {
    ResidualIs(c.apex, c.bot, p);
    PredictThrough(c.apex, p.AddDelta(-c.delta));
  }

  lemma NewTopPredicts(c: Segmenter, p: Point)
    requires c.apex.x != p.x
    ensures var high := Predict(c.apex, c.top, p.x);
            if Abs(p.y - high) > c.delta then Predict(c.apex, c.NewTop(p), p.x) == p.y + c.delta else c.NewTop(p) == c.top
  {
    ResidualIs(c.apex, c.top, p);
    PredictThrough(c.apex, p.AddDelta(c.delta));
  }

  /** Where the bottom line of the cone goes after an accepted point. */
  lemma {:induction false} OfferBot(c: Segmenter, p: Point)
    requires c.apex.x < p.x && c.delta > 0.0 && c.Offer(p).1.None?
    ensures c.bot <= c.Offer(p).0.bot == c.NewBot(p)
    ensures p.y - c.delta <= Predict(c.apex, c.Offer(p).0.bot, p.x) <= p.y
    ensures c.Offer(p).0.bot == c.bot || Predict(c.apex, c.Offer(p).0.bot, p.x) == p.y - c.delta
  {
    AcceptsIff(c, p);
    NewBotPredicts(c, p);
    PredictReflects(c.apex, c.bot, c.NewBot(p), p.x);
  }

  lemma {:induction false} OfferTop(c: Segmenter, p: Point)
    requires c.apex.x < p.x && c.delta > 0.0 && c.Offer(p).1.None?
    ensures c.NewTop(p) == c.Offer(p).0.top <= c.top
    ensures p.y <= Predict(c.apex, c.Offer(p).0.top, p.x) <= p.y + c.delta
    ensures c.Offer(p).0.top == c.top || Predict(c.apex, c.Offer(p).0.top, p.x) == p.y + c.delta
  {
    AcceptsIff(c, p);
    NewTopPredicts(c, p);
    PredictReflects(c.apex, c.NewTop(p), c.top, p.x);
  }

  lemma {:induction false} OfferNarrows(c: Segmenter, p: Point)
    requires c.apex.x < p.x && c.delta > 0.0 && c.Offer(p).1.None?
    ensures var d := c.Offer(p).0;
            && d == Segmenter(c.apex, p, c.delta, c.startX, d.bot, d.top)
            && c.bot <= d.bot <= d.top <= c.top && CloseToBoth(d, p)
  {
    OfferBot(c, p);
    OfferTop(c, p);
    PredictReflects(c.apex, c.Offer(p).0.bot, c.Offer(p).0.top, p.x);
  }

  /** An accepted point joins those that every line of the cone is close to. */
  lemma {:induction false} OfferCovers(c: Segmenter, points: seq<Point>, p: Point)
    requires Covers(c, points) && c.last.x < p.x && c.Offer(p).1.None?
    ensures Covers(c.Offer(p).0, points + [p])
  {
    OfferNarrows(c, p);
    var d := c.Offer(p).0;
    forall i | 0 <= i < |points|
      ensures CloseToBoth(d, points[i])
    {
      NarrowerClose(c, d, points[i]);
    }
  }

  /** The line of a segment is within `delta` of every point that it took in. */
  lemma {:induction false} FinishFits(c: Segmenter, points: seq<Point>)
    requires Covers(c, points)
    ensures Fits(c.Finish(), points, c.delta)
  {
    forall i | 0 <= i < |points|
      ensures Abs(c.Finish().At(points[i].x) - points[i].y) <= c.delta
    {
      assert CloseToBoth(c, points[i]);
      CloseBetween(c.apex, c.bot, (c.bot + c.top) / 2.0, c.top, points[i], c.delta);
      PredictIsLine(c.apex, (c.bot + c.top) / 2.0, points[i].x);
    }
  }

  // ------------------------------------------------------------ the slope

  /** The points rise and the top of the cone stays above the second one. */
  ghost predicate Rises(c: Segmenter, points: seq<Point>) {
    && |points| >= 2 && points[0].y < points[1].y <= c.last.y
    && c.apex.y == (points[0].y + points[1].y) / 2.0
    && Predict(c.apex, c.top, c.last.x) >= points[1].y + c.delta
  }

  lemma StartRises(s1: Point, s2: Point, delta: real)
    requires s1.x < s2.x && delta > 0.0 && s1.y < s2.y
    ensures Rises(Start(s1, s2, delta), [s1, s2])
  {
    StartClose(s1, s2, delta);
  }

  /** A line above its apex somewhere to the right goes on rising. */
  lemma RisesFurther(apex: Point, slope: real, x: real, x': real)
    requires apex.x < x <= x' && Predict(apex, slope, x) > apex.y
    ensures slope > 0.0 && Predict(apex, slope, x') >= Predict(apex, slope, x)
  {
    assert slope > 0.0;
    assert slope * (x' - apex.x) == slope * (x - apex.x) + slope * (x' - x);
  }

  lemma {:induction false} OfferRises(c: Segmenter, points: seq<Point>, p: Point)
    requires Covers(c, points) && Rises(c, points) && c.last.x < p.x && points[1].y <= p.y && c.Offer(p).1.None?
    ensures Rises(c.Offer(p).0, points + [p])
  {
    OfferNarrows(c, p);
    OfferTop(c, p);
    RisesFurther(c.apex, c.top, c.last.x, p.x);
  }

  /** Over rising points the line of a segment rises. */
  lemma FinishRises(c: Segmenter, points: seq<Point>)
    requires Covers(c, points) && Rises(c, points)
    ensures c.Finish().slope > 0.0
  {
    assert CloseToBoth(c, points[|points| - 1]);
    var low, high := Predict(c.apex, c.bot, c.last.x), Predict(c.apex, c.top, c.last.x);
    assert low >= c.last.y - c.delta && high >= points[1].y + c.delta;
    SlopeSum(c.apex, c.bot, c.top, c.last.x);
  }

  lemma SlopeSum(apex: Point, b: real, t: real, x: real)
    requires x > apex.x && Predict(apex, b, x) + Predict(apex, t, x) > 2.0 * apex.y
    ensures b + t > 0.0
  {
    Scale(b, t, x - apex.x);
    PositiveFactor(b + t, x - apex.x);
  }

  lemma PositiveFactor(a: real, d: real)
    requires d > 0.0 && a * d > 0.0
    ensures a > 0.0
  {
  }

  // ------------------------------------------------------------ when a point is refused

  /** A point is refused exactly if no line of the cone passes through it; the line returned is the middle one. */
  lemma OfferRefusesIff(c: Segmenter, p: Point)
    requires c.bot <= c.top && c.apex.x < p.x
    ensures c.Offer(p).1.Some? <==> forall slope | c.bot <= slope <= c.top :: Predict(c.apex, slope, p.x) != p.y
    ensures c.Offer(p).1.Some? ==> c.Offer(p) == (c, Some(c.Finish()))
  {
    AcceptsIff(c, p);
    if c.Offer(p).1.Some? {
      forall slope | c.bot <= slope <= c.top
        ensures Predict(c.apex, slope, p.x) != p.y
      {
        PredictMonotone(c.apex, c.bot, slope, p.x);
        PredictMonotone(c.apex, slope, c.top, p.x);
      }
    } else {
      var slope := SlopeOf(c.apex, p);
      PredictThrough(c.apex, p);
      PredictReflects(c.apex, c.bot, slope, p.x);
      PredictReflects(c.apex, slope, c.top, p.x);
    }
  }

  // ------------------------------------------------------------ the cone is all there is

  /** The slope fits every point. */
  ghost predicate CloseToAll(apex: Point, slope: real, points: seq<Point>, delta: real) {
    forall i | 0 <= i < |points| :: Close(apex, slope, points[i], delta)
  }

  /** The cone has every line through its apex that stays within `delta` of the points, and no other. */
  ghost predicate Exact(c: Segmenter, points: seq<Point>) {
    forall slope :: CloseToAll(c.apex, slope, points, c.delta) <==> c.bot <= slope <= c.top
  }

  lemma StartExactAt(s1: Point, s2: Point, delta: real, slope: real)
    requires s1.x < s2.x && delta > 0.0 && Close(Start(s1, s2, delta).apex, slope, s2, delta)
    ensures Start(s1, s2, delta).bot <= slope <= Start(s1, s2, delta).top
  {
    var c := Start(s1, s2, delta);
    StartRight(s1, s2, delta);
    PredictReflects(c.apex, c.bot, slope, s2.x);
    PredictReflects(c.apex, slope, c.top, s2.x);
  }

  lemma {:induction false} StartExact(s1: Point, s2: Point, delta: real)
    requires s1.x < s2.x && delta > 0.0
    ensures Exact(Start(s1, s2, delta), [s1, s2])
  {
    var c, points := Start(s1, s2, delta), [s1, s2];
    StartClose(s1, s2, delta);
    forall slope
      ensures CloseToAll(c.apex, slope, points, delta) <==> c.bot <= slope <= c.top
    {
      if c.bot <= slope <= c.top {
        CloseBetween(c.apex, c.bot, slope, c.top, s1, delta);
        CloseBetween(c.apex, c.bot, slope, c.top, s2, delta);
      } else if CloseToAll(c.apex, slope, points, delta) {
        assert Close(c.apex, slope, points[1], delta);
        StartExactAt(s1, s2, delta, slope);
      }
    }
  }

  lemma {:induction false} OfferExactAt(c: Segmenter, p: Point, slope: real)
    requires c.apex.x < p.x && c.delta > 0.0 && c.Offer(p).1.None?
    ensures c.Offer(p).0.bot <= slope <= c.Offer(p).0.top <==> c.bot <= slope <= c.top && Close(c.apex, slope, p, c.delta)
  {
    var d := c.Offer(p).0;
    OfferNarrows(c, p);
    OfferBot(c, p);
    OfferTop(c, p);
    if d.bot <= slope <= d.top {
      CloseBetween(c.apex, d.bot, slope, d.top, p, c.delta);
    } else if c.bot <= slope <= c.top && Close(c.apex, slope, p, c.delta) {
      if d.bot != c.bot {
        PredictReflects(c.apex, d.bot, slope, p.x);
      }
      if d.top != c.top {
        PredictReflects(c.apex, slope, d.top, p.x);
      }
    }
  }

  /** Taking a point in loses no line that still fits. */
  lemma {:induction false} OfferExact(c: Segmenter, points: seq<Point>, p: Point)
    requires Exact(c, points) && c.apex.x < p.x && c.delta > 0.0 && c.Offer(p).1.None?
    ensures Exact(c.Offer(p).0, points + [p])
  {
    var d, all := c.Offer(p).0, points + [p];
    OfferNarrows(c, p);
    forall slope
      ensures CloseToAll(d.apex, slope, all, d.delta) <==> d.bot <= slope <= d.top
    {
      OfferExactAt(c, p, slope);
      assert CloseToAll(c.apex, slope, all, c.delta) <==> CloseToAll(c.apex, slope, points, c.delta) && Close(c.apex, slope, p, c.delta) by {
        CloseToOneMore(c.apex, slope, points, p, c.delta);
      }
    }
  }

  /** A point is refused exactly if no line through the apex that fits all points so far passes through it. */
  lemma {:induction false} RefusedIff(c: Segmenter, points: seq<Point>, p: Point)
    requires Exact(c, points) && c.bot <= c.top && c.apex.x < p.x
    ensures c.Offer(p).1.Some? <==>
              forall slope | CloseToAll(c.apex, slope, points, c.delta) :: Predict(c.apex, slope, p.x) != p.y
  {
    OfferRefusesIff(c, p);
  }

  lemma CloseToOneMore(apex: Point, slope: real, points: seq<Point>, p: Point, delta: real)
    ensures CloseToAll(apex, slope, points + [p], delta) <==> CloseToAll(apex, slope, points, delta) && Close(apex, slope, p, delta)
  {
    var all := points + [p];
    if CloseToAll(apex, slope, all, delta) {
      forall i | 0 <= i < |points|
        ensures Close(apex, slope, points[i], delta)
      {
        assert Close(apex, slope, all[i], delta);
      }
      assert Close(apex, slope, all[|points|], delta);
    }
  }

  // ------------------------------------------------------------ points on the diagonal

  /** A cone that lies symmetrically around the diagonal. */
  ghost predicate Straight(c: Segmenter) {
    c.delta > 0.0 && c.apex == Point(0.5, 0.5) && c.bot + c.top == 2.0 && c.bot <= c.top
  }

  lemma StraightStart(delta: real)
    requires delta > 0.0
    ensures Straight(Start(Point(0.0, 0.0), Point(1.0, 1.0), delta))
  {
    StartSlopes(Point(0.0, 0.0), Point(1.0, 1.0), delta);
  }

  /** Slopes that mirror each other at the diagonal. */
  lemma MirroredBy(b: real, t: real, d: real)
    requires b + t == 2.0 && b <= t && d > 0.0
    ensures b * d <= d <= t * d && t * d - d == d - b * d
  {
    Scale(b, t, d);
    var sum := b + t;
    assert sum * d == 2.0 * d;
    Scale(1.0, b, d);
    NonNegative(1.0 - b, d);
  }

  lemma NonNegative(a: real, d: real)
    requires a >= 0.0 && d > 0.0
    ensures a * d >= 0.0
  {
  }

  lemma MirroredSlopes(d: real, delta: real, b: real, t: real)
    requires d > 0.0 && b == (d - delta) / d && t == (d + delta) / d
    ensures b + t == 2.0
  {
    Quotient(d - delta, d);
    Quotient(d + delta, d);
    Scale(b, t, d);
    Cancel(b + t, 2.0, d);
  }

  lemma StraightPredicts(c: Segmenter, x: real)
    requires Straight(c) && x > 0.5
    ensures Predict(c.apex, c.bot, x) <= x <= Predict(c.apex, c.top, x)
    ensures Predict(c.apex, c.top, x) - x == x - Predict(c.apex, c.bot, x)
  {
    MirroredBy(c.bot, c.top, x - 0.5);
  }

  lemma StraightResiduals(c: Segmenter, x: real)
    requires Straight(c) && x > 0.5
    ensures Residual(c.apex, c.top, Point(x, x)) == -Residual(c.apex, c.bot, Point(x, x))
  {
    StraightPredicts(c, x);
    ResidualIs(c.apex, c.bot, Point(x, x));
    ResidualIs(c.apex, c.top, Point(x, x));
  }

  /** Both slopes move alike. */
  lemma StraightSlopes(c: Segmenter, x: real)
    requires Straight(c) && x > 0.5
    ensures c.NewBot(Point(x, x)) + c.NewTop(Point(x, x)) == 2.0
  {
    var p, d := Point(x, x), x - 0.5;
    StraightResiduals(c, x);
    MirroredSlopes(d, c.delta, SlopeOf(c.apex, p.AddDelta(-c.delta)), SlopeOf(c.apex, p.AddDelta(c.delta)));
  }

  /** A point on the diagonal is taken in. */
  lemma {:induction false} StraightOffer(c: Segmenter, x: real)
    requires Straight(c) && x > 0.5
    ensures c.Offer(Point(x, x)).1.None? && Straight(c.Offer(Point(x, x)).0) && c.Offer(Point(x, x)).0.delta == c.delta
  {
    StraightPredicts(c, x);
    AcceptsIff(c, Point(x, x));
    StraightSlopes(c, x);
    OfferNarrows(c, Point(x, x));
  }

  lemma StraightFinish(c: Segmenter)
    requires Straight(c)
    ensures c.Finish() == Line(1.0, 0.0)
  {
  }

  // ------------------------------------------------------------ how steep a line is

  /** Over any stretch the points rise by no more than they advance. */
  ghost predicate Slow(points: seq<Point>) {
    forall i, j | 0 <= i < j < |points| :: points[j].y - points[i].y <= points[j].x - points[i].x
  }

  /** The cone starts in the middle of the first two points, and its middle line is no steeper than the diagonal. */
  ghost predicate Gentle(c: Segmenter, points: seq<Point>) {
    && |points| >= 2 && c.bot + c.top <= 2.0
    && c.apex == Point((points[0].x + points[1].x) / 2.0, (points[0].y + points[1].y) / 2.0)
  }

  lemma StartGentle(s1: Point, s2: Point, delta: real)
    requires s1.x < s2.x && delta > 0.0 && s2.y - s1.y <= s2.x - s1.x
    ensures Gentle(Start(s1, s2, delta), [s1, s2])
  {
    var c, h := Start(s1, s2, delta), s2.x - s1.x;
    StartSlopes(s1, s2, delta);
    Scale(c.bot, c.top, h);
    BoundedFactor(c.bot + c.top, h, s2.y - s1.y);
  }

  lemma BoundedFactor(a: real, d: real, rise: real)
    requires d > 0.0 && a * d <= rise + rise && rise <= d
    ensures a <= 2.0
  {
    assert (2.0 - a) * d == d + d - a * d;
    SignOfFactor(2.0 - a, d);
  }

  /** The slopes of lines that pass as far above a point on or below the diagonal as below it. */
  lemma SlopeSumBelow(apex: Point, b: real, t: real, p: Point)
    requires p.x > apex.x && p.y - apex.y <= p.x - apex.x
    requires Predict(apex, b, p.x) + Predict(apex, t, p.x) <= 2.0 * p.y
    ensures b + t <= 2.0
  {
    var d := p.x - apex.x;
    Scale(b, t, d);
    BoundedFactor(b + t, d, p.y - apex.y);
  }

  lemma {:induction false} OfferGentle(c: Segmenter, points: seq<Point>, p: Point)
    requires Covers(c, points) && Gentle(c, points) && c.last.x < p.x && c.Offer(p).1.None?
    requires Slow(points + [p])
    ensures Gentle(c.Offer(p).0, points + [p])
  {
    var d, all := c.Offer(p).0, points + [p];
    OfferNarrows(c, p);
    OfferBot(c, p);
    OfferTop(c, p);
    if d.bot != c.bot {
      assert all[|points|].y - all[0].y <= all[|points|].x - all[0].x;
      assert all[|points|].y - all[1].y <= all[|points|].x - all[1].x;
      SlopeSumBelow(c.apex, d.bot, d.top, p);
    }
  }

  /** A rising line through the middle of the first two points starts below it. */
  lemma FinishStartsLow(c: Segmenter, points: seq<Point>)
    requires Gentle(c, points) && c.Finish().slope > 0.0 && points[0].x <= points[1].x
    ensures c.Finish().At(points[0].x) <= (points[0].y + points[1].y) / 2.0
  {
    PredictIsLine(c.apex, (c.bot + c.top) / 2.0, points[0].x);
    PredictMonotone(c.apex, 0.0, (c.bot + c.top) / 2.0, points[0].x);
  }

  // ------------------------------------------------------------ a stream of points

  datatype Builder = Builder(delta: real, s1: Option<Point>, s2: Option<Point>, curr: Option<Segmenter>) {

    /** Takes the next point in, or returns the line of the points before it and starts again from the last two. */
    function Offer(p: Point): (r: (Builder, Option<Line>))
      requires Ready(p)
    {
      if s1.None? then (this.(s1 := Some(p)), None)
      else if s2.None? then (this.(s2 := Some(p), curr := Some(Start(s1.value, p, delta))), None)
      else
        var r := curr.value.Offer(p);
        if r.1.None? then (this.(curr := Some(r.0)), None)
        else
          var last := curr.value.last;
          (this.(s1 := Some(last), s2 := Some(p), curr := Some(Start(last, p, delta))), r.1)
    }

    /** What the source asserts of the points it is offered. */
    ghost predicate Ready(p: Point) {
      && delta > 0.0
      && (s1.Some? && s2.None? ==> s1.value.x < p.x)
      && (s1.Some? && s2.Some? ==> curr.Some? && curr.value.apex.x < p.x && curr.value.last.x < p.x)
    }

    function Finish(): Option<Line>
      requires s1.Some? && s2.Some? ==> curr.Some?
    {
      if s1.None? then None
      else if s2.None? then Some(FromTwoPoints(s1.value, Point(s1.value.x + 1.0, s1.value.y)))
      else Some(curr.value.Finish())
    }
  }

  ghost predicate RisingPoints(points: seq<Point>) {
    forall i, j | 0 <= i < j < |points| :: points[i].y < points[j].y
  }

  /** The builder has taken in exactly these points. */
  ghost predicate Tracks(b: Builder, points: seq<Point>) {
    && b.delta > 0.0
    && (b.s1.None? <==> |points| == 0) && (b.s2.None? <==> |points| <= 1)
    && (|points| == 1 ==> b.s1.value == points[0])
    && (|points| >= 2 ==> && b.curr.Some? && b.curr.value.delta == b.delta && Covers(b.curr.value, points)
                          && (RisingPoints(points) ==> Rises(b.curr.value, points))
                          && (Slow(points) ==> Gentle(b.curr.value, points)))
  }

  ghost predicate Next(points: seq<Point>, p: Point) {
    |points| > 0 ==> points[|points| - 1].x < p.x
  }

  lemma RisingPrefix(points: seq<Point>, p: Point)
    requires RisingPoints(points + [p])
    ensures RisingPoints(points) && (|points| >= 2 ==> points[1].y < p.y) && (|points| == 1 ==> points[0].y < p.y)
  {
    var all := points + [p];
    forall i, j | 0 <= i < j < |points|
      ensures points[i].y < points[j].y
    {
      assert all[i].y < all[j].y;
    }
    assert |points| >= 2 ==> all[1].y < all[|points|].y;
    assert |points| == 1 ==> all[0].y < all[|points|].y;
  }

  lemma SlowPrefix(points: seq<Point>, p: Point)
    requires Slow(points + [p])
    ensures Slow(points)
  {
    var all := points + [p];
    forall i, j | 0 <= i < j < |points|
      ensures points[j].y - points[i].y <= points[j].x - points[i].x
    {
      assert all[j].y - all[i].y <= all[j].x - all[i].x;
    }
  }

  lemma TracksTwo(s1: Point, s2: Point, delta: real)
    requires s1.x < s2.x && delta > 0.0
    ensures Tracks(Builder(delta, Some(s1), Some(s2), Some(Start(s1, s2, delta))), [s1, s2])
  {
    StartCovers(s1, s2, delta);
    if RisingPoints([s1, s2]) {
      assert [s1, s2][0].y < [s1, s2][1].y;
      StartRises(s1, s2, delta);
    }
    if Slow([s1, s2]) {
      assert [s1, s2][1].y - [s1, s2][0].y <= [s1, s2][1].x - [s1, s2][0].x;
      StartGentle(s1, s2, delta);
    }
  }

  lemma {:induction false} TracksMore(b: Builder, points: seq<Point>, p: Point)
    requires Tracks(b, points) && Next(points, p) && b.Ready(p) && |points| >= 2 && b.Offer(p).1.None?
    ensures Tracks(b.Offer(p).0, points + [p])
  {
    var c := b.curr.value;
    OfferNarrows(c, p);
    OfferCovers(c, points, p);
    if RisingPoints(points + [p]) {
      RisingPrefix(points, p);
      OfferRises(c, points, p);
    }
    if Slow(points + [p]) {
      SlowPrefix(points, p);
      OfferGentle(c, points, p);
    }
  }

  /** A point is taken in, or it starts the next line together with the last one. */
  lemma {:induction false} OfferTracks(b: Builder, points: seq<Point>, p: Point)
    requires Tracks(b, points) && Next(points, p) && b.Ready(p)
    ensures b.Offer(p).1.None? ==> Tracks(b.Offer(p).0, points + [p])
    ensures b.Offer(p).1.Some? ==>
              |points| >= 2 && b.Offer(p).1 == b.Finish() && Tracks(b.Offer(p).0, [points[|points| - 1], p])
  {
    if |points| == 1 {
      TracksTwo(points[0], p, b.delta);
      assert points + [p] == [points[0], p];
    } else if |points| >= 2 {
      if b.Offer(p).1.None? {
        TracksMore(b, points, p);
      } else {
        TracksTwo(points[|points| - 1], p, b.delta);
      }
    }
  }

  /** The line after a single point. */
  lemma FlatLine(p: Point)
    ensures FromTwoPoints(p, Point(p.x + 1.0, p.y)) == Line(0.0, p.y) && Line(0.0, p.y).At(p.x) == p.y
  {
    assert SlopeOf(p, Point(p.x + 1.0, p.y)) == 0.0;
  }

  /** The final line fits every point, rises if two or more rising points were taken in, and is as slow as they are. */
  lemma {:induction false} FinishTracks(b: Builder, points: seq<Point>)
    requires Tracks(b, points) && |points| > 0
    ensures b.Finish().Some? && Fits(b.Finish().value, points, b.delta)
    ensures |points| == 1 ==> b.Finish().value == Line(0.0, points[0].y)
    ensures |points| >= 2 && RisingPoints(points) ==> b.Finish().value.slope > 0.0
    ensures Slow(points) ==> b.Finish().value.slope <= 1.0
    ensures |points| >= 2 && RisingPoints(points) && Slow(points) ==>
              b.Finish().value.At(points[0].x) <= (points[0].y + points[1].y) / 2.0
  {
    if |points| == 1 {
      FlatLine(points[0]);
    } else {
      FinishFits(b.curr.value, points);
      if RisingPoints(points) {
        FinishRises(b.curr.value, points);
        if Slow(points) {
          FinishStartsLow(b.curr.value, points);
        }
      }
    }
  }

  /** The builder has taken in the points (0, 0), (1, 1) and so on up to `n` of them. */
  ghost predicate OnDiagonal(b: Builder, n: nat) {
    && b.delta > 0.0 && n > 0 && b.s1.Some? && (b.s2.Some? <==> n > 1)
    && (n == 1 ==> b.s1 == Some(Point(0.0, 0.0)))
    && (n > 1 ==> b.curr.Some? && b.curr.value.delta == b.delta && Straight(b.curr.value))
  }

  /** The next point of the diagonal is taken in. */
  lemma {:induction false} DiagonalNext(b: Builder, n: nat)
    requires OnDiagonal(b, n) && b.Ready(Point(n as real, n as real))
    ensures b.Offer(Point(n as real, n as real)).1.None? && OnDiagonal(b.Offer(Point(n as real, n as real)).0, n + 1)
  {
    if n == 1 {
      StraightStart(b.delta);
    } else {
      StraightOffer(b.curr.value, n as real);
    }
  }

  lemma DiagonalFinish(b: Builder, n: nat)
    requires OnDiagonal(b, n) && n > 1
    ensures b.Finish() == Some(Line(1.0, 0.0))
  {
    StraightFinish(b.curr.value);
  }
}
