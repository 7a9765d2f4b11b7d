/**
 * The magnitude-duration chart's marker rules. The plot component clusters
 * circles by calling back into two rules supplied by the chart: `CanAggregate`
 * (may two circles merge?) and `AggregateCurves` (what circle replaces a group?).
 * This module models those two rules, the preparation of the circles they
 * operate on, and the parsing of the magnitude-duration curves drawn behind them.
 *
 * The plot's axis transformations (domain to screen and back) belong to the plot
 * component; here they are four arbitrary functions on reals, and the lemmas that
 * need them to be inverse to each other or monotone say so in their requires.
 */
module MagDur {
  import opened Optional
  import opened Strings

  /** A position in data coordinates: duration in seconds (T axis) and magnitude in per unit (Y axis). */
  datatype Point = Point(x: real, y: real)

  /** What a click on a circle asks for. */
  datatype Action =
    | SelectEvent(eventID: int)
      /** Zoom: new T domain and Y domain, each given as the pair the plot receives. */
    | SetDomains(tDomain: (real, real), yDomain: (real, real))

  datatype Border = Border(color: string, thickness: real)

  /** A circle handed to the plot: position in data coordinates, radius in pixels. */
  datatype Circle = Circle(
    data: Point,
    color: string,
    radius: real,
    border: Option<Border>,
    text: Option<string>,
    opacity: Option<real>,
    onClick: Option<Action>)

  /** The plot's current axis transformations: data to screen, and screen to data. */
  datatype Transforms = Transforms(
    x: real -> real,
    y: real -> real,
    xInverse: real -> real,
    yInverse: real -> real)

  /** The screen box an aggregate spans: the members' centres padded on every side. */
  datatype Box = Box(xmin: real, xmax: real, ymin: real, ymax: real)

  /** Radius, in pixels, of every event marker and of the selected-event marker. */
  const MarkerRadius: real := 5.0

  /** Pixels added on each side of the members' bounding box. */
  const Padding: real := 5.0

  // ---------------------------------------------------------------------------
  // Arithmetic helpers
  // ---------------------------------------------------------------------------

  function Abs(v: real): (a: real)
    ensures a >= 0.0 && (a == v || a == -v)
  {
    if v < 0.0 then -v else v
  }

  /** `Math.max(...xs)` over a non-empty list: an upper bound that is one of the values. */
  function Max(xs: seq<real>): (m: real)
    requires |xs| > 0
    ensures forall i :: 0 <= i < |xs| ==> xs[i] <= m
    ensures exists i :: 0 <= i < |xs| && xs[i] == m
  {
    if |xs| == 1 then xs[0]
    else
      var rest := Max(xs[1..]);
      assert forall i :: 1 <= i < |xs| ==> xs[i] == xs[1..][i - 1];
      if xs[0] >= rest then xs[0] else rest
  }

  /** `Math.min(...xs)` over a non-empty list: a lower bound that is one of the values. */
  function Min(xs: seq<real>): (m: real)
    requires |xs| > 0
    ensures forall i :: 0 <= i < |xs| ==> m <= xs[i]
    ensures exists i :: 0 <= i < |xs| && xs[i] == m
  {
    if |xs| == 1 then xs[0]
    else
      var rest := Min(xs[1..]);
      assert forall i :: 1 <= i < |xs| ==> xs[i] == xs[1..][i - 1];
      if xs[0] <= rest then xs[0] else rest
  }

  /** `Max` depends only on which values occur, not on their order or repetition. */
  lemma MaxSameValues(xs: seq<real>, ys: seq<real>)
    requires |xs| > 0 && |ys| > 0
    requires forall v :: v in xs <==> v in ys
    ensures Max(xs) == Max(ys)
  {
    var mx, my := Max(xs), Max(ys);
    var i :| 0 <= i < |xs| && xs[i] == mx;
    var j :| 0 <= j < |ys| && ys[j] == my;
    assert mx in ys;
    assert my in xs;
  }

  /** `Min` depends only on which values occur, not on their order or repetition. */
  lemma MinSameValues(xs: seq<real>, ys: seq<real>)
    requires |xs| > 0 && |ys| > 0
    requires forall v :: v in xs <==> v in ys
    ensures Min(xs) == Min(ys)
  {
    var mx, my := Min(xs), Min(ys);
    var i :| 0 <= i < |xs| && xs[i] == mx;
    var j :| 0 <= j < |ys| && ys[j] == my;
    assert mx in ys;
    assert my in xs;
  }

  lemma SquareLess(u: real, v: real)
    requires 0.0 <= u < v
    ensures u * u < v * v
  {
    assert v * v - u * u == (v - u) * (v + u);
    ProductPositive(v - u, v + u);
  }

  lemma ProductPositive(a: real, b: real)
    requires a > 0.0 && b > 0.0
    ensures a * b > 0.0
  {
  }

  lemma SquareAtMost(u: real, v: real)
    requires 0.0 <= u <= v
    ensures u * u <= v * v
  {
    assert v * v - u * u == (v - u) * (v + u);
    assert (v - u) * (v + u) >= 0.0;
  }

  // ---------------------------------------------------------------------------
  // Screen positions
  // ---------------------------------------------------------------------------

  function ScreenX(c: Circle, t: Transforms): real
  {
    t.x(c.data.x)
  }

  function ScreenY(c: Circle, t: Transforms): real
  {
    t.y(c.data.y)
  }

  function ScreenXs(d: seq<Circle>, t: Transforms): (xs: seq<real>)
    ensures |xs| == |d| && forall i :: 0 <= i < |d| ==> xs[i] == ScreenX(d[i], t)
  {
    seq(|d|, i requires 0 <= i < |d| => ScreenX(d[i], t))
  }

  function ScreenYs(d: seq<Circle>, t: Transforms): (ys: seq<real>)
    ensures |ys| == |d| && forall i :: 0 <= i < |d| ==> ys[i] == ScreenY(d[i], t)
  {
    seq(|d|, i requires 0 <= i < |d| => ScreenY(d[i], t))
  }

  /** Rearranging the circles does not change which screen coordinates occur. */
  lemma ScreenSameValues(d: seq<Circle>, e: seq<Circle>, t: Transforms)
    requires multiset(d) == multiset(e)
    ensures forall v :: v in ScreenXs(d, t) <==> v in ScreenXs(e, t)
    ensures forall v :: v in ScreenYs(d, t) <==> v in ScreenYs(e, t)
  {
    forall c | c in d ensures c in e {
      assert c in multiset(d);
    }
    forall c | c in e ensures c in d {
      assert c in multiset(e);
    }
    var xd, xe, yd, ye := ScreenXs(d, t), ScreenXs(e, t), ScreenYs(d, t), ScreenYs(e, t);
    forall v ensures (v in xd ==> v in xe) && (v in yd ==> v in ye) {
      if v in xd {
        var i :| 0 <= i < |d| && xd[i] == v;
        assert d[i] in d;
        var j :| 0 <= j < |e| && e[j] == d[i];
        assert xe[j] == v;
      }
      if v in yd {
        var i :| 0 <= i < |d| && yd[i] == v;
        assert d[i] in d;
        var j :| 0 <= j < |e| && e[j] == d[i];
        assert ye[j] == v;
      }
    }
    forall v ensures (v in xe ==> v in xd) && (v in ye ==> v in yd) {
      if v in xe {
        var j :| 0 <= j < |e| && xe[j] == v;
        assert e[j] in e;
        var i :| 0 <= i < |d| && d[i] == e[j];
        assert xd[i] == v;
      }
      if v in ye {
        var j :| 0 <= j < |e| && ye[j] == v;
        assert e[j] in e;
        var i :| 0 <= i < |d| && d[i] == e[j];
        assert yd[i] == v;
      }
    }
  }

  // ---------------------------------------------------------------------------
  // The merge predicate
  // ---------------------------------------------------------------------------

  /**
   * Two circles may merge when the squared distance between their screen centres
   * is strictly below the squared sum of their radii. Circles that merge are
   * closer than the radius sum on each axis separately.
   */
  predicate CanAggregate(d1: Circle, d2: Circle, t: Transforms): (m: bool)
    ensures m ==> Abs(ScreenX(d1, t) - ScreenX(d2, t)) < Abs(d1.radius + d2.radius)
    ensures m ==> Abs(ScreenY(d1, t) - ScreenY(d2, t)) < Abs(d1.radius + d2.radius)
  {
    var dx := ScreenX(d1, t) - ScreenX(d2, t);
    var dy := ScreenY(d1, t) - ScreenY(d2, t);
    var r := d1.radius + d2.radius;
    SquaresBelowBoundEach(dx, dy, r);
    dx * dx + dy * dy < r * r
  }

  /** When a sum of two squares is below `r * r`, each term is below `|r|` in size. */
  lemma SquaresBelowBoundEach(dx: real, dy: real, r: real)
    ensures dx * dx + dy * dy < r * r ==> Abs(dx) < Abs(r) && Abs(dy) < Abs(r)
  {
    var a, b, c := Abs(dx), Abs(dy), Abs(r);
    assert a * a == dx * dx && b * b == dy * dy && c * c == r * r;
    SquareAtMost(0.0, a);
    SquareAtMost(0.0, b);
    if c <= a {
      SquareAtMost(c, a);
    }
    if c <= b {
      SquareAtMost(c, b);
    }
  }

  /** The merge predicate does not depend on the order of its arguments. */
  lemma CanAggregateSymmetric(d1: Circle, d2: Circle, t: Transforms)
    ensures CanAggregate(d1, d2, t) <==> CanAggregate(d2, d1, t)
  {
    var dx := ScreenX(d1, t) - ScreenX(d2, t);
    var dy := ScreenY(d1, t) - ScreenY(d2, t);
    assert (-dx) * (-dx) == dx * dx;
    assert (-dy) * (-dy) == dy * dy;
  }

  /**
   * The merge predicate sees only screen positions and radii: two pairs of
   * circles that agree on those get the same answer, whatever their data
   * coordinates, colours or actions.
   */
  lemma CanAggregateScreenOnly(d1: Circle, d2: Circle, e1: Circle, e2: Circle, t: Transforms)
    requires ScreenX(d1, t) == ScreenX(e1, t) && ScreenY(d1, t) == ScreenY(e1, t)
    requires ScreenX(d2, t) == ScreenX(e2, t) && ScreenY(d2, t) == ScreenY(e2, t)
    requires d1.radius == e1.radius && d2.radius == e2.radius
    ensures CanAggregate(d1, d2, t) <==> CanAggregate(e1, e2, t)
  {
  }

  /** With radii summing to zero nothing merges, not even two circles at the same spot. */
  lemma ZeroRadiiNeverMerge(d1: Circle, d2: Circle, t: Transforms)
    requires d1.radius + d2.radius == 0.0
    ensures !CanAggregate(d1, d2, t)
  {
    var dx := ScreenX(d1, t) - ScreenX(d2, t);
    var dy := ScreenY(d1, t) - ScreenY(d2, t);
    SquareAtMost(0.0, Abs(dx));
    SquareAtMost(0.0, Abs(dy));
    assert Abs(dx) * Abs(dx) == dx * dx;
    assert Abs(dy) * Abs(dy) == dy * dy;
  }

  /** Circles on the same screen spot merge exactly when their radii do not sum to zero. */
  lemma CoincidentMerge(d1: Circle, d2: Circle, t: Transforms)
    requires ScreenX(d1, t) == ScreenX(d2, t) && ScreenY(d1, t) == ScreenY(d2, t)
    ensures CanAggregate(d1, d2, t) <==> d1.radius + d2.radius != 0.0
  {
    var r := d1.radius + d2.radius;
    if r != 0.0 {
      SquareLess(0.0, Abs(r));
      assert Abs(r) * Abs(r) == r * r;
    }
  }

  /**
   * Inner bound: circles whose screen centres are closer than the sum of the
   * radii in the taxicab metric (|dx| + |dy|) always merge.
   */
  lemma NearCirclesMerge(d1: Circle, d2: Circle, t: Transforms)
    requires Abs(ScreenX(d1, t) - ScreenX(d2, t)) + Abs(ScreenY(d1, t) - ScreenY(d2, t)) < d1.radius + d2.radius
    ensures CanAggregate(d1, d2, t)
  {
    var dx := ScreenX(d1, t) - ScreenX(d2, t);
    var dy := ScreenY(d1, t) - ScreenY(d2, t);
    var a, b, r := Abs(dx), Abs(dy), d1.radius + d2.radius;
    assert a * a == dx * dx && b * b == dy * dy;
    assert a * b >= 0.0;
    assert (a + b) * (a + b) == a * a + 2.0 * (a * b) + b * b;
    SquareLess(a + b, r);
  }

  /**
   * Outer bound: for non-negative radii, circles whose screen centres are at
   * least the sum of the radii apart on one axis never merge.
   */
  lemma FarCirclesNeverMerge(d1: Circle, d2: Circle, t: Transforms)
    requires d1.radius + d2.radius >= 0.0
    requires Abs(ScreenX(d1, t) - ScreenX(d2, t)) >= d1.radius + d2.radius
          || Abs(ScreenY(d1, t) - ScreenY(d2, t)) >= d1.radius + d2.radius
    ensures !CanAggregate(d1, d2, t)
  {
    var dx := ScreenX(d1, t) - ScreenX(d2, t);
    var dy := ScreenY(d1, t) - ScreenY(d2, t);
    var a, b, r := Abs(dx), Abs(dy), d1.radius + d2.radius;
    assert a * a == dx * dx && b * b == dy * dy;
    SquareAtMost(0.0, a);
    SquareAtMost(0.0, b);
    if a >= r {
      SquareAtMost(r, a);
    } else {
      SquareAtMost(r, b);
    }
  }

  // ---------------------------------------------------------------------------
  // The merge rule
  // ---------------------------------------------------------------------------

  /** The members' screen centres' bounding box, padded by `Padding` on every side (member radii are ignored). */
  function PaddedBox(d: seq<Circle>, t: Transforms): (b: Box)
    requires |d| > 0
    ensures b.xmax - b.xmin >= 2.0 * Padding && b.ymax - b.ymin >= 2.0 * Padding
    ensures forall i :: 0 <= i < |d| ==>
              b.xmin + Padding <= ScreenX(d[i], t) <= b.xmax - Padding &&
              b.ymin + Padding <= ScreenY(d[i], t) <= b.ymax - Padding
  {
    var xs, ys := ScreenXs(d, t), ScreenYs(d, t);
    assert xs[0] <= Max(xs) && Min(xs) <= xs[0];
    assert ys[0] <= Max(ys) && Min(ys) <= ys[0];
    Box(Min(xs) - Padding, Max(xs) + Padding, Min(ys) - Padding, Max(ys) + Padding)
  }

  /** The box is tight: on each of its four sides some member sits exactly `Padding` pixels inside. */
  lemma PaddedBoxTight(d: seq<Circle>, t: Transforms)
    requires |d| > 0
    ensures var b := PaddedBox(d, t);
            (exists i :: 0 <= i < |d| && ScreenX(d[i], t) == b.xmax - Padding) &&
            (exists i :: 0 <= i < |d| && ScreenX(d[i], t) == b.xmin + Padding) &&
            (exists i :: 0 <= i < |d| && ScreenY(d[i], t) == b.ymax - Padding) &&
            (exists i :: 0 <= i < |d| && ScreenY(d[i], t) == b.ymin + Padding)
  {
    var xs, ys := ScreenXs(d, t), ScreenYs(d, t);
    var i1 :| 0 <= i1 < |xs| && xs[i1] == Max(xs);
    var i2 :| 0 <= i2 < |xs| && xs[i2] == Min(xs);
    var i3 :| 0 <= i3 < |ys| && ys[i3] == Max(ys);
    var i4 :| 0 <= i4 < |ys| && ys[i4] == Min(ys);
  }

  /** `Math.max(a, b, c, e)`. */
  function Max4(a: real, b: real, c: real, e: real): (m: real)
    ensures a <= m && b <= m && c <= m && e <= m
    ensures m == a || m == b || m == c || m == e
  {
    var ab := if a >= b then a else b;
    var ce := if c >= e then c else e;
    if ab >= ce then ab else ce
  }

  /** The box's horizontal midpoint: as far from either vertical edge, and between them. */
  function CentreX(b: Box): (c: real)
    ensures c - b.xmin == b.xmax - c
    ensures b.xmin <= b.xmax ==> b.xmin <= c <= b.xmax
  {
    0.5 * (b.xmax + b.xmin)
  }

  /** The box's vertical midpoint: as far from either horizontal edge, and between them. */
  function CentreY(b: Box): (c: real)
    ensures c - b.ymin == b.ymax - c
    ensures b.ymin <= b.ymax ==> b.ymin <= c <= b.ymax
  {
    0.5 * (b.ymax + b.ymin)
  }

  /**
   * The circle that replaces the group `d`: centred on the padded box's midpoint
   * (mapped back to data coordinates), with the box's larger half-extent as
   * radius, labelled with the member count, and zooming to the box when clicked.
   */
  function AggregateCurves(d: seq<Circle>, t: Transforms): (a: Circle)
    requires |d| > 0
    ensures a.radius >= Padding
    ensures var b := PaddedBox(d, t);
            (a.radius == (b.xmax - b.xmin) / 2.0 || a.radius == (b.ymax - b.ymin) / 2.0) &&
            a.radius >= (b.xmax - b.xmin) / 2.0 && a.radius >= (b.ymax - b.ymin) / 2.0
    ensures a.text.Some? && AllDigits(a.text.value) && DecimalValue(a.text.value) == |d| && a.text.value[0] != '0'
  {
    var b := PaddedBox(d, t);
    var xcenter := CentreX(b);
    var ycenter := CentreY(b);
    var r := Max4(Abs(b.xmax - xcenter), Abs(b.xmin - xcenter), Abs(b.ymax - ycenter), Abs(b.ymin - ycenter));
    DecimalRoundTrip(|d|);
    Circle(
      Point(t.xInverse(xcenter), t.yInverse(ycenter)),
      "rgb(108, 117, 125)",
      r,
      Some(Border("black", 2.0)),
      Some(DecimalString(|d|)),
      Some(0.5),
      Some(SetDomains((t.xInverse(b.xmax), t.xInverse(b.xmin)), (t.yInverse(b.ymax), t.yInverse(b.ymin)))))
  }

  /** The aggregate is drawn as a translucent grey circle with a black border. */
  lemma AggregateStyle(d: seq<Circle>, t: Transforms)
    requires |d| > 0
    ensures var a := AggregateCurves(d, t);
            a.color == "rgb(108, 117, 125)" && a.border == Some(Border("black", 2.0)) && a.opacity == Some(0.5)
  {
  }

  /**
   * Every member's screen centre lies inside the padded box, at least `Padding`
   * pixels from its edges, so within `radius - Padding` of the aggregate's
   * centre on each axis; and the box is tight: on each side some member is
   * exactly `Padding` pixels from the edge.
   */
  lemma AggregateContainsMembers(d: seq<Circle>, t: Transforms, i: int)
    requires 0 <= i < |d|
    ensures var b, a := PaddedBox(d, t), AggregateCurves(d, t);
            b.xmin < ScreenX(d[i], t) < b.xmax && b.ymin < ScreenY(d[i], t) < b.ymax &&
            Abs(ScreenX(d[i], t) - CentreX(b)) <= a.radius - Padding &&
            Abs(ScreenY(d[i], t) - CentreY(b)) <= a.radius - Padding
  {
  }

  /** Screen-to-data followed by data-to-screen is the identity. */
  ghost predicate RightInverse(f: real -> real, g: real -> real)
  {
    forall p :: f(g(p)) == p
  }

  /** `g` is non-decreasing or non-increasing (a screen Y axis usually runs downwards). */
  ghost predicate Monotone(g: real -> real)
  {
    || (forall u, v :: u <= v ==> g(u) <= g(v))
    || (forall u, v :: u <= v ==> g(v) <= g(u))
  }

  predicate Between(v: real, e1: real, e2: real)
  {
    (e1 <= v <= e2) || (e2 <= v <= e1)
  }

  /** When the transforms undo their inverses, the aggregate is drawn exactly at the box's midpoint. */
  lemma AggregateCentredOnBox(d: seq<Circle>, t: Transforms)
    requires |d| > 0
    requires RightInverse(t.x, t.xInverse) && RightInverse(t.y, t.yInverse)
    ensures var b, a := PaddedBox(d, t), AggregateCurves(d, t);
            ScreenX(a, t) == 0.5 * (b.xmax + b.xmin) && ScreenY(a, t) == 0.5 * (b.ymax + b.ymin)
  {
    var b := PaddedBox(d, t);
    assert t.x(t.xInverse(CentreX(b))) == CentreX(b);
    assert t.y(t.yInverse(CentreY(b))) == CentreY(b);
  }

  /**
   * Clicking the aggregate requests the box's edges mapped back to data
   * coordinates, larger screen coordinate first. When the inverses are monotone
   * and undo the transforms at the members' own coordinates (as a logarithmic
   * axis does for positive durations), each requested range brackets every
   * member's data coordinate.
   */
  lemma ZoomBracketsMembers(d: seq<Circle>, t: Transforms, i: int)
    requires 0 <= i < |d|
    requires forall k :: 0 <= k < |d| ==> t.xInverse(t.x(d[k].data.x)) == d[k].data.x
    requires forall k :: 0 <= k < |d| ==> t.yInverse(t.y(d[k].data.y)) == d[k].data.y
    requires Monotone(t.xInverse) && Monotone(t.yInverse)
    ensures var b, a := PaddedBox(d, t), AggregateCurves(d, t);
            a.onClick == Some(SetDomains((t.xInverse(b.xmax), t.xInverse(b.xmin)),
                                         (t.yInverse(b.ymax), t.yInverse(b.ymin)))) &&
            Between(d[i].data.x, t.xInverse(b.xmax), t.xInverse(b.xmin)) &&
            Between(d[i].data.y, t.yInverse(b.ymax), t.yInverse(b.ymin))
  {
    var b := PaddedBox(d, t);
    var sx, sy := ScreenX(d[i], t), ScreenY(d[i], t);
    assert t.xInverse(sx) == d[i].data.x;
    assert t.yInverse(sy) == d[i].data.y;
    BracketByMonotone(t.xInverse, b.xmin, sx, b.xmax);
    BracketByMonotone(t.yInverse, b.ymin, sy, b.ymax);
  }

  lemma BracketByMonotone(g: real -> real, lo: real, v: real, hi: real)
    requires Monotone(g) && lo <= v <= hi
    ensures Between(g(v), g(hi), g(lo))
  {
    if forall u, w :: u <= w ==> g(u) <= g(w) {
      assert g(lo) <= g(v) <= g(hi);
    } else {
      assert g(hi) <= g(v) <= g(lo);
    }
  }

  /**
   * The aggregate does not depend on the order in which the plot lists the
   * members: any rearrangement of the group gives the same circle.
   */
  lemma AggregateOrderIndependent(d: seq<Circle>, e: seq<Circle>, t: Transforms)
    requires |d| == |e| > 0 && multiset(d) == multiset(e)
    ensures AggregateCurves(d, t) == AggregateCurves(e, t)
  {
    ScreenSameValues(d, e, t);
    MaxSameValues(ScreenXs(d, t), ScreenXs(e, t));
    MinSameValues(ScreenXs(d, t), ScreenXs(e, t));
    MaxSameValues(ScreenYs(d, t), ScreenYs(e, t));
    MinSameValues(ScreenYs(d, t), ScreenYs(e, t));
    assert PaddedBox(d, t) == PaddedBox(e, t);
    AggregateDeterminedByBox(d, e, t);
  }

  /** The aggregate depends on the group only through its padded box and its size. */
  lemma AggregateDeterminedByBox(d: seq<Circle>, e: seq<Circle>, t: Transforms)
    requires |d| == |e| > 0 && PaddedBox(d, t) == PaddedBox(e, t)
    ensures AggregateCurves(d, t) == AggregateCurves(e, t)
  {
  }

  /** The identity transforms: screen coordinates equal data coordinates. */
  function Identity(): (t: Transforms)
    ensures RightInverse(t.x, t.xInverse) && RightInverse(t.y, t.yInverse)
  {
    Transforms(v => v, v => v, v => v, v => v)
  }

  /** Two markers on a diagonal, 100 pixels apart on each axis under the identity transforms. */
  function DiagonalPair(): (d: seq<Circle>)
    ensures |d| == 2
    ensures ScreenX(d[0], Identity()) == 0.0 && ScreenY(d[0], Identity()) == 0.0
    ensures ScreenX(d[1], Identity()) == 100.0 && ScreenY(d[1], Identity()) == 100.0
  {
    [Circle(Point(0.0, 0.0), "red", MarkerRadius, None, None, None, None),
     Circle(Point(100.0, 100.0), "red", MarkerRadius, None, None, None, None)]
  }

  lemma DiagonalPairBox()
    ensures PaddedBox(DiagonalPair(), Identity()) == Box(-5.0, 105.0, -5.0, 105.0)
  {
    var d, t := DiagonalPair(), Identity();
    var xs, ys := ScreenXs(d, t), ScreenYs(d, t);
    assert xs[0] == 0.0 && xs[1] == 100.0;
    assert ys[0] == 0.0 && ys[1] == 100.0;
    MaxMinOfPair(xs);
    MaxMinOfPair(ys);
  }

  /** Of two ordered values, the second is the largest and the first the smallest. */
  lemma MaxMinOfPair(xs: seq<real>)
    requires |xs| == 2 && xs[0] <= xs[1]
    ensures Max(xs) == xs[1] && Min(xs) == xs[0]
  {
    assert xs[1..] == [xs[1]];
  }

  /**
   * The aggregate's radius is the box's larger half-extent, not its
   * half-diagonal, so a member in a corner of the box can lie outside the drawn
   * aggregate: members at (0, 0) and (100, 100) give a box from -5 to 105 on
   * both axes and radius 55, and the member at (0, 0) is about 70.7 pixels from
   * the centre (50, 50).
   */
  lemma AggregateMayMissCornerMembers()
    ensures var d, t := DiagonalPair(), Identity();
            var a := AggregateCurves(d, t);
            var dx, dy := ScreenX(d[0], t) - ScreenX(a, t), ScreenY(d[0], t) - ScreenY(a, t);
            a.radius == 55.0 && dx * dx + dy * dy > a.radius * a.radius
  {
    var d, t := DiagonalPair(), Identity();
    DiagonalPairBox();
    AggregateCentredOnBox(d, t);
    var a := AggregateCurves(d, t);
    assert a.radius == 55.0;
    assert ScreenX(a, t) == 50.0 && ScreenY(a, t) == 50.0;
  }

  // ---------------------------------------------------------------------------
  // Preparing the circles
  // ---------------------------------------------------------------------------

  /** One row of the event search as the chart reads it. */
  datatype EventPoint = EventPoint(eventID: int, duration: real, magnitude: real)

  /** The red, clickable marker for one event. */
  function EventMarker(p: EventPoint): (c: Circle)
    ensures c.data == Point(p.duration, p.magnitude) && c.radius == MarkerRadius
    ensures c.onClick == Some(SelectEvent(p.eventID))
  {
    Circle(Point(p.duration, p.magnitude), "red", MarkerRadius, None, None, None, Some(SelectEvent(p.eventID)))
  }

  /** The circles handed to the aggregating plot: every event except the selected one, in order. */
  function AggregationInput(points: seq<EventPoint>, selected: int): (cs: seq<Circle>)
    ensures |cs| <= |points|
    ensures forall c :: c in cs ==>
              c.radius == MarkerRadius && c.color == "red" &&
              exists p :: p in points && p.eventID != selected && c == EventMarker(p)
  {
    if points == [] then []
    else
      var rest := AggregationInput(points[1..], selected);
      assert forall p :: p in points[1..] ==> p in points;
      (if points[0].eventID != selected then [EventMarker(points[0])] else []) + rest
  }

  /** The blue marker drawn at the selected event's position. */
  function SelectedMarker(p: EventPoint): (c: Circle)
    ensures c.data == Point(p.duration, p.magnitude) && c.radius == MarkerRadius
    ensures c.color == "blue" && c.onClick == None
  {
    Circle(Point(p.duration, p.magnitude), "blue", MarkerRadius, None, None, None, None)
  }

  /**
   * The selected event's own marker(s): blue, the same radius, not clickable,
   * never aggregated, each at the position of an event carrying the selected id.
   */
  function SelectedMarkers(points: seq<EventPoint>, selected: int): (cs: seq<Circle>)
    ensures |cs| <= |points|
    ensures forall c :: c in cs ==> c.color == "blue" && c.radius == MarkerRadius && c.onClick == None
    ensures forall c :: c in cs ==>
              exists p :: p in points && p.eventID == selected && c.data == Point(p.duration, p.magnitude)
  {
    if points == [] then []
    else
      var rest := SelectedMarkers(points[1..], selected);
      assert forall p :: p in points[1..] ==> p in points;
      if points[0].eventID == selected then [SelectedMarker(points[0])] + rest else rest
  }

  /** Every event carrying the selected id gets its blue marker. */
  lemma {:induction false} SelectedMarkersKeepSelected(points: seq<EventPoint>, selected: int, p: EventPoint)
    requires p in points && p.eventID == selected
    ensures SelectedMarker(p) in SelectedMarkers(points, selected)
    decreases |points|
  {
    if points[0] != p {
      SelectedMarkersKeepSelected(points[1..], selected, p);
    }
  }

  /** The markers prepared for a non-empty sequence: its head's marker, if any, then the rest's. */
  function HeadMarkers(p: EventPoint, selected: int): (cs: seq<Circle>)
    ensures cs == [] <==> p.eventID == selected
  {
    if p.eventID != selected then [EventMarker(p)] else []
  }

  lemma AggregationInputCons(ps: seq<EventPoint>, selected: int)
    requires ps != []
    ensures AggregationInput(ps, selected) == HeadMarkers(ps[0], selected) + AggregationInput(ps[1..], selected)
  {
  }

  /** Preparing a concatenation prepares each part in turn: order is kept. */
  lemma {:induction false} AggregationInputAppend(ps: seq<EventPoint>, qs: seq<EventPoint>, selected: int)
    ensures AggregationInput(ps + qs, selected) == AggregationInput(ps, selected) + AggregationInput(qs, selected)
    decreases |ps|
  {
    if ps != [] {
      var keep := HeadMarkers(ps[0], selected);
      assert (ps + qs)[0] == ps[0];
      assert (ps + qs)[1..] == ps[1..] + qs;
      AggregationInputAppend(ps[1..], qs, selected);
      AggregationInputCons(ps, selected);
      AggregationInputCons(ps + qs, selected);
      var front, back := AggregationInput(ps[1..], selected), AggregationInput(qs, selected);
      assert keep + (front + back) == (keep + front) + back;
    } else {
      assert ps + qs == qs;
    }
  }

  /** Every event other than the selected one gets its marker. */
  lemma {:induction false} AggregationInputKeepsOthers(points: seq<EventPoint>, selected: int, p: EventPoint)
    requires p in points && p.eventID != selected
    ensures EventMarker(p) in AggregationInput(points, selected)
    decreases |points|
  {
    if points[0] != p {
      AggregationInputKeepsOthers(points[1..], selected, p);
    }
  }

  /** Each event is drawn exactly once: either among the aggregated circles or as the selected marker. */
  lemma {:induction false} EveryEventDrawnOnce(points: seq<EventPoint>, selected: int)
    ensures |AggregationInput(points, selected)| + |SelectedMarkers(points, selected)| == |points|
    decreases |points|
  {
    if points != [] {
      EveryEventDrawnOnce(points[1..], selected);
    }
  }

  // ---------------------------------------------------------------------------
  // Magnitude-duration curves
  // ---------------------------------------------------------------------------

  /** A magnitude-duration curve: `area` is a comma-separated list of "duration magnitude" pairs. */
  datatype MagDurCurve = MagDurCurve(name: string, area: string, lowerCurve: Option<string>, upperCurve: Option<string>)

  /** The `i`-th word, or the text `parseFloat` makes of `undefined` when there is none. */
  function WordAt(words: seq<string>, i: nat): (w: string)
    ensures w in words || w == "undefined"
    ensures i < |words| ==> w == words[i]
    ensures i >= |words| ==> w == "undefined"
  {
    if i < |words| then words[i] else "undefined"
  }

  /** One "duration magnitude" segment: trimmed, split on single spaces, first two words parsed. */
  function CurvePoint(segment: string, parse: string -> real): (p: Point)
    ensures var words := Split(Trim(segment), " ");
            p.x == parse(words[0]) && p.y == parse(WordAt(words, 1))
    ensures ' ' !in Trim(segment) ==> p == Point(parse(Trim(segment)), parse("undefined"))
  {
    var words := Split(Trim(segment), " ");
    OneWordPoint(Trim(segment), parse);
    Point(parse(WordAt(words, 0)), parse(WordAt(words, 1)))
  }

  lemma OneWordPoint(w: string, parse: string -> real)
    ensures var words := Split(w, " ");
            ' ' !in w ==> Point(parse(WordAt(words, 0)), parse(WordAt(words, 1))) == Point(parse(w), parse("undefined"))
  {
    SingleWord(w);
  }

  /** Text without a space splits on " " into itself alone. */
  lemma SingleWord(w: string)
    ensures ' ' !in w ==> Split(w, " ") == [w]
  {
    if ' ' !in w {
      assert Join([w], [' ']) == w;
      SplitJoin([w], ' ');
    }
  }

  /** Whitespace around a segment does not change the point read from it. */
  lemma CurvePointIgnoresOuterWhitespace(segment: string, parse: string -> real)
    ensures CurvePoint(Trim(segment), parse) == CurvePoint(segment, parse)
  {
    var u := Trim(segment);
    TrimFixed(u);
    assert Split(Trim(u), " ") == Split(u, " ");
  }

  /**
   * The points of a curve's line: empty when the curve has a lower or upper
   * curve of its own; otherwise one point per comma-separated segment of
   * `area`, in order.
   */
  function GenerateCurve(curve: MagDurCurve, parse: string -> real): (pts: seq<Point>)
    ensures (curve.lowerCurve.Some? || curve.upperCurve.Some?) ==> pts == []
    ensures curve.lowerCurve.None? && curve.upperCurve.None? ==>
              |pts| == 1 + multiset(curve.area)[','] && |pts| == |Split(curve.area, ",")| &&
              forall i :: 0 <= i < |pts| ==> pts[i] == CurvePoint(Split(curve.area, ",")[i], parse)
  {
    if curve.lowerCurve.None? && curve.upperCurve.None? then
      var segments := Split(curve.area, ",");
      SplitCount(curve.area, ',');
      seq(|segments|, i requires 0 <= i < |segments| => CurvePoint(segments[i], parse))
    else
      []
  }

  /**
   * An area written as comma-joined segments, none of which holds a comma,
   * gives one point per segment, in order, each read from its own segment.
   */
  lemma GenerateCurveFromSegments(name: string, segments: seq<string>, parse: string -> real)
    requires |segments| > 0
    requires forall k :: 0 <= k < |segments| ==> ',' !in segments[k]
    ensures var pts := GenerateCurve(MagDurCurve(name, Join(segments, ","), None, None), parse);
            |pts| == |segments| && forall k :: 0 <= k < |segments| ==> pts[k] == CurvePoint(segments[k], parse)
  {
    SplitJoin(segments, ',');
  }

  /** A segment written as two words with one space between them reads back as those two words, parsed. */
  lemma CurvePointOfPair(a: string, b: string, parse: string -> real)
    requires a != [] && b != [] && ' ' !in a && ' ' !in b
    requires !IsWhitespace(a[0]) && !IsWhitespace(b[|b| - 1])
    ensures CurvePoint(a + " " + b, parse) == Point(parse(a), parse(b))
  {
    var s := a + " " + b;
    TrimFixed(s);
    assert Join([a, b], " ") == s;
    SplitJoin([a, b], ' ');
  }

  /**
   * The round trip of a curve's area: writing durations and magnitudes as
   * "duration magnitude" pairs joined by commas, then generating the curve,
   * gives one point per pair holding the parsed duration and magnitude.
   */
  lemma GenerateCurveRoundTrip(name: string, durations: seq<string>, magnitudes: seq<string>, parse: string -> real)
    requires |durations| == |magnitudes| > 0
    requires forall k :: 0 <= k < |durations| ==>
               durations[k] != [] && ' ' !in durations[k] && ',' !in durations[k] && !IsWhitespace(durations[k][0])
    requires forall k :: 0 <= k < |magnitudes| ==>
               magnitudes[k] != [] && ' ' !in magnitudes[k] && ',' !in magnitudes[k] &&
               !IsWhitespace(magnitudes[k][|magnitudes[k]| - 1])
    ensures var area := Join(seq(|durations|, k requires 0 <= k < |durations| => durations[k] + " " + magnitudes[k]), ",");
            GenerateCurve(MagDurCurve(name, area, None, None), parse) ==
            seq(|durations|, k requires 0 <= k < |durations| => Point(parse(durations[k]), parse(magnitudes[k])))
  {
    var segments := seq(|durations|, k requires 0 <= k < |durations| => durations[k] + " " + magnitudes[k]);
    forall k | 0 <= k < |segments|
      ensures ',' !in segments[k]
      ensures CurvePoint(segments[k], parse) == Point(parse(durations[k]), parse(magnitudes[k]))
    {
      CurvePointOfPair(durations[k], magnitudes[k], parse);
    }
    GenerateCurveFromSegments(name, segments, parse);
  }

  // ---------------------------------------------------------------------------
  // What the chart draws
  // ---------------------------------------------------------------------------

  /** The markers the chart hands to the plot: the aggregating group and the selected markers. */
  datatype ChartMarkers = ChartMarkers(aggregated: seq<Circle>, selectedMarkers: seq<Circle>)

  /**
   * The chart as written: the aggregating group is the `data` state, rebuilt by
   * an effect that runs only when `points` changes, so it excludes the id that
   * was selected then (`builtFor`); the blue markers use the id selected now.
   */
  function ChartAsWritten(points: seq<EventPoint>, builtFor: int, selected: int): (m: ChartMarkers)
    ensures m.aggregated == AggregationInput(points, builtFor)
    ensures m.selectedMarkers == SelectedMarkers(points, selected)
    ensures builtFor == selected ==> |m.aggregated| + |m.selectedMarkers| == |points|
  {
    EveryEventDrawnOnce(points, selected);
    ChartMarkers(AggregationInput(points, builtFor), SelectedMarkers(points, selected))
  }

  /**
   * With `data` built for an earlier selection, the newly selected event is drawn
   * twice (red among the aggregated circles and blue), and the previously
   * selected one is not drawn at all.
   */
  lemma StaleSelectionMisdrawn(points: seq<EventPoint>, builtFor: int, selected: int, p: EventPoint, q: EventPoint)
    requires builtFor != selected
    requires p in points && p.eventID == selected
    requires q in points && q.eventID == builtFor
    ensures var m := ChartAsWritten(points, builtFor, selected);
            EventMarker(p) in m.aggregated && SelectedMarker(p) in m.selectedMarkers &&
            EventMarker(q) !in m.aggregated &&
            (forall c :: c in m.aggregated ==> c.onClick != Some(SelectEvent(builtFor))) &&
            (forall c :: c in m.selectedMarkers ==> c.onClick == None)
  {
    AggregationInputKeepsOthers(points, builtFor, p);
    SelectedMarkersKeepSelected(points, selected, p);
    NoneSelectsTheExcluded(points, builtFor);
  }

  /** A concrete case: events 1 and 2, `data` built while event 1 was selected, event 2 selected now. */
  lemma StaleSelectionExample()
    ensures var p1, p2 := EventPoint(1, 1.0, 1.0), EventPoint(2, 2.0, 2.0);
            var m := ChartAsWritten([p1, p2], 1, 2);
            m.aggregated == [EventMarker(p2)] && m.selectedMarkers == [SelectedMarker(p2)]
  {
    var p1, p2 := EventPoint(1, 1.0, 1.0), EventPoint(2, 2.0, 2.0);
    assert [p1, p2][1..] == [p2] && [p2][1..] == [];
    assert AggregationInput([p2], 1) == [EventMarker(p2)];
    assert AggregationInput([p1, p2], 1) == AggregationInput([p2], 1);
    assert SelectedMarkers([p2], 2) == [SelectedMarker(p2)];
    assert SelectedMarkers([p1, p2], 2) == SelectedMarkers([p2], 2);
  }

  /**
   * The chart as intended: the aggregating group is rebuilt whenever the selection
   * changes too, so every event is drawn exactly once, red and clickable unless
   * it is the selected one.
   */
  function ChartIntended(points: seq<EventPoint>, selected: int): (m: ChartMarkers)
    ensures |m.aggregated| + |m.selectedMarkers| == |points|
    ensures forall p :: p in points && p.eventID != selected ==> EventMarker(p) in m.aggregated
    ensures forall p :: p in points && p.eventID == selected ==> SelectedMarker(p) in m.selectedMarkers
    ensures forall c :: c in m.aggregated ==> c.onClick != Some(SelectEvent(selected))
  {
    EveryEventMarked(points, selected);
    NoneSelectsTheExcluded(points, selected);
    ChartAsWritten(points, selected, selected)
  }

  /** Each event gets its marker: red when it is not the excluded id, blue when it is the selected id. */
  lemma EveryEventMarked(points: seq<EventPoint>, selected: int)
    ensures forall p :: p in points && p.eventID != selected ==> EventMarker(p) in AggregationInput(points, selected)
    ensures forall p :: p in points && p.eventID == selected ==> SelectedMarker(p) in SelectedMarkers(points, selected)
  {
    forall p | p in points && p.eventID != selected
      ensures EventMarker(p) in AggregationInput(points, selected)
    {
      AggregationInputKeepsOthers(points, selected, p);
    }
    forall p | p in points && p.eventID == selected
      ensures SelectedMarker(p) in SelectedMarkers(points, selected)
    {
      SelectedMarkersKeepSelected(points, selected, p);
    }
  }

  /** No aggregated circle selects the id the group was built without. */
  lemma NoneSelectsTheExcluded(points: seq<EventPoint>, excluded: int)
    ensures forall c :: c in AggregationInput(points, excluded) ==> c.onClick != Some(SelectEvent(excluded))
  {
    forall c | c in AggregationInput(points, excluded)
      ensures c.onClick != Some(SelectEvent(excluded))
    {
      var r :| r in points && r.eventID != excluded && c == EventMarker(r);
    }
  }
}
