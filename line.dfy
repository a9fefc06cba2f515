/** `line(p0, p1, image, color)`: plots the segment from `p0` to `p1` by
    walking the longer axis one pixel at a time and interpolating the other
    coordinate with a float parameter `t`. The image is modelled as the
    sequence of coordinates handed to `image.set`, in call order; the colour
    is the same for every write and is not modelled. */
module LineRaster {
  import opened Geometry

  /** The segment is "steep" when its vertical extent exceeds its horizontal
      one; it is then walked along y instead of x. */
  predicate Steep(p0: Point, p1: Point) {
    Abs(p0.x - p1.x) < Abs(p0.y - p1.y)
  }

  /** `std::swap(p.x, p.y)`. */
  function Transpose(p: Point): Point {
    Point(p.y, p.x)
  }

  /** The coordinate frame change between the original and the walking frame:
      a steep segment is transposed on the way in and every pixel is written
      back transposed (`image.set(y, x)`), otherwise nothing changes. */
  function Frame(steep: bool, p: Point): Point {
    if steep then Transpose(p) else p
  }

  /** Writing back undoes the transpose. */
  lemma FrameTwice(steep: bool, p: Point)
    ensures Frame(steep, Frame(steep, p)) == p
  {
  }

  /** The endpoints after the steep transpose and the endpoint swap, in the
      walking frame, together with the steep flag. */
  datatype Segment = Segment(steep: bool, a: Point, b: Point)

  function Normalize(p0: Point, p1: Point): (s: Segment)
    ensures s.steep == Steep(p0, p1)
    ensures s.a.x <= s.b.x
    ensures (Frame(s.steep, s.a) == p0 && Frame(s.steep, s.b) == p1)
         || (Frame(s.steep, s.a) == p1 && Frame(s.steep, s.b) == p0)
    // the walking axis is the longer one: the slope is at most one
    ensures Abs(s.b.y - s.a.y) <= s.b.x - s.a.x
    // the walk is empty of length only for coincident endpoints
    ensures s.a.x == s.b.x <==> p0 == p1
  {
    var steep := Steep(p0, p1);
    var a, b := Frame(steep, p0), Frame(steep, p1);
    if a.x > b.x then Segment(steep, b, a) else Segment(steep, a, b)
  }

  /** `int y = a.y * (1. - t) + b.y * t` with `t = (x - a.x) / (b.x - a.x)`,
      evaluated exactly and truncated toward zero. */
  function LineY(a: Point, b: Point, x: int): int
    requires a.x < b.x
  {
    TruncDiv(Blend(a, b, x), b.x - a.x)
  }

  /** `a.y * (1 - t) + b.y * t` scaled by the run length `b.x - a.x`. */
  function Blend(a: Point, b: Point, x: int): int {
    a.y * (b.x - x) + b.y * (x - a.x)
  }

  /** One column further along, the scaled blend moves by the rise. */
  lemma BlendStep(a: Point, b: Point, x: int)
    ensures Blend(a, b, x + 1) == Blend(a, b, x) + (b.y - a.y)
  {
    MulShift(a.y, b.x - (x + 1));
    MulShift(b.y, x - a.x);
  }

  /** What a call to `line` does: the pixels it writes, or, for coincident
      endpoints, the undefined behaviour of converting `0 / 0.0f` (NaN) to
      `int` in its single iteration. */
  datatype LineResult = Drawn(pixels: seq<Point>) | UndefinedZeroLength

  /** The writes of `line(p0, p1, …)`: one pixel for each integer on the
      walking axis from `a.x` to `b.x` inclusive. */
  function LinePlot(p0: Point, p1: Point): (r: LineResult)
    ensures r.UndefinedZeroLength? <==> p0 == p1
    ensures r.Drawn? ==> |r.pixels| == Max(Abs(p0.x - p1.x), Abs(p0.y - p1.y)) + 1
  {
    var s := Normalize(p0, p1);
    if s.a.x == s.b.x then UndefinedZeroLength
    else Drawn(seq(s.b.x - s.a.x + 1,
                   k => Frame(s.steep, Point(s.a.x + k, LineY(s.a, s.b, s.a.x + k)))))
  }

  /** The routine itself: transpose when steep, swap the endpoints so the walk
      goes left to right, then one write per column. */
  method Line(p0: Point, p1: Point) returns (r: LineResult)
    ensures r == LinePlot(p0, p1)
  {
    var a, b := p0, p1;
    var steep := false;
    if Abs(a.x - b.x) < Abs(a.y - b.y) {
      a, b := Transpose(a), Transpose(b);
      steep := true;
    }
    if a.x > b.x {
      a, b := b, a;
    }
    assert Segment(steep, a, b) == Normalize(p0, p1);
    var pixels: seq<Point> := [];
    var x := a.x;
    while x <= b.x
      invariant a.x <= x <= b.x + 1
      invariant x > a.x ==> a.x < b.x
      invariant |pixels| == x - a.x
      invariant forall k :: 0 <= k < |pixels| ==>
                  a.x < b.x && pixels[k] == Frame(steep, Point(a.x + k, LineY(a, b, a.x + k)))
    {
      if b.x == a.x {
        // t = 0 / 0.0f is NaN, and converting it to int is undefined
        return UndefinedZeroLength;
      }
      var y := LineY(a, b, x);
      if steep {
        pixels := pixels + [Point(y, x)];
      } else {
        pixels := pixels + [Point(x, y)];
      }
      x := x + 1;
    }
    assert pixels == LinePlot(p0, p1).pixels;
    r := Drawn(pixels);
  }

  // ---- properties of the plotted pixels ----

  /** The walk visits every integer of the longer axis exactly once, in
      increasing order: the k-th write sits at the k-th coordinate from the
      lower end, on the original (untransposed) axis. */
  lemma LineMajorAxis(p0: Point, p1: Point)
    requires p0 != p1
    ensures var px := LinePlot(p0, p1).pixels;
      forall k :: 0 <= k < |px| ==>
        if Steep(p0, p1) then px[k].y == Min(p0.y, p1.y) + k
        else px[k].x == Min(p0.x, p1.x) + k
  {
    var s := Normalize(p0, p1);
    var px := LinePlot(p0, p1).pixels;
    NormalizeCorners(p0, p1);
    assert s.a.x == if s.steep then Min(p0.y, p1.y) else Min(p0.x, p1.x);
    forall k | 0 <= k < |px|
      ensures if s.steep then px[k].y == s.a.x + k else px[k].x == s.a.x + k
    {
      assert px[k] == Frame(s.steep, Point(s.a.x + k, LineY(s.a, s.b, s.a.x + k)));
    }
  }

  /** The walking-frame box `[a.x, b.x] x [min y, max y]` is the original
      endpoints' bounding box, transposed back when steep. */
  lemma NormalizeCorners(p0: Point, p1: Point)
    ensures var s := Normalize(p0, p1);
      Frame(s.steep, Point(s.a.x, Min(s.a.y, s.b.y))) == Point(Min(p0.x, p1.x), Min(p0.y, p1.y)) &&
      Frame(s.steep, Point(s.b.x, Max(s.a.y, s.b.y))) == Point(Max(p0.x, p1.x), Max(p0.y, p1.y))
  {
  }

  /** Interpolation at the two ends of the walk gives back the endpoints'
      own minor coordinates (`t = 0` and `t = 1`). */
  lemma LineYEnds(a: Point, b: Point)
    requires a.x < b.x
    ensures LineY(a, b, a.x) == a.y && LineY(a, b, b.x) == b.y
  {
    var d := b.x - a.x;
    assert Blend(a, b, a.x) == a.y * d;
    assert Blend(a, b, b.x) == b.y * d;
    TruncDivExact(a.y, d);
    TruncDivExact(b.y, d);
  }

  /** Both original endpoints are written. */
  lemma LineEndpoints(p0: Point, p1: Point)
    requires p0 != p1
    ensures p0 in LinePlot(p0, p1).pixels && p1 in LinePlot(p0, p1).pixels
  {
    var s := Normalize(p0, p1);
    var px := LinePlot(p0, p1).pixels;
    LineYEnds(s.a, s.b);
    assert px[0] == Frame(s.steep, s.a);
    assert px[s.b.x - s.a.x] == Frame(s.steep, s.b);
  }

  /** The interpolated minor coordinate never leaves the range spanned by the
      endpoints. */
  lemma LineYBetween(a: Point, b: Point, x: int)
    requires a.x <= x <= b.x && a.x < b.x
    ensures Min(a.y, b.y) <= LineY(a, b, x) <= Max(a.y, b.y)
  {
    var d, lo, hi := b.x - a.x, Min(a.y, b.y), Max(a.y, b.y);
    var n := Blend(a, b, x);
    assert lo * d <= n <= hi * d by {
      assert lo * (b.x - x) <= a.y * (b.x - x) <= hi * (b.x - x) by {
        if x < b.x {
          MulLeftMonotone(lo, a.y, b.x - x);
          MulLeftMonotone(a.y, hi, b.x - x);
        }
      }
      assert lo * (x - a.x) <= b.y * (x - a.x) <= hi * (x - a.x) by {
        if x > a.x {
          MulLeftMonotone(lo, b.y, x - a.x);
          MulLeftMonotone(b.y, hi, x - a.x);
        }
      }
      assert lo * d == lo * (b.x - x) + lo * (x - a.x);
      assert hi * d == hi * (b.x - x) + hi * (x - a.x);
    }
    TruncDivBetween(n, d, lo, hi);
  }

  /** Every written pixel lies in the bounding box of the two original
      endpoints: the steep transpose is undone on every write. */
  lemma LineInBox(p0: Point, p1: Point)
    requires p0 != p1
    ensures forall p :: p in LinePlot(p0, p1).pixels ==>
      Min(p0.x, p1.x) <= p.x <= Max(p0.x, p1.x) && Min(p0.y, p1.y) <= p.y <= Max(p0.y, p1.y)
  {
    var s := Normalize(p0, p1);
    var px := LinePlot(p0, p1).pixels;
    NormalizeCorners(p0, p1);
    forall p | p in px
      ensures Min(p0.x, p1.x) <= p.x <= Max(p0.x, p1.x) && Min(p0.y, p1.y) <= p.y <= Max(p0.y, p1.y)
    {
      var k :| 0 <= k < |px| && px[k] == p;
      var y := LineY(s.a, s.b, s.a.x + k);
      LineYBetween(s.a, s.b, s.a.x + k);
      assert p == Frame(s.steep, Point(s.a.x + k, y));
    }
  }

  /** Swapping the arguments gives the same walk, so the same writes in the
      same order: the steep test is symmetric and the endpoint swap puts both
      calls on the same canonical pair. */
  lemma LineReversible(p0: Point, p1: Point)
    ensures LinePlot(p0, p1) == LinePlot(p1, p0)
  {
    assert Normalize(p0, p1) == Normalize(p1, p0);
  }

  /** Moving one column along the walk moves the interpolated coordinate by
      zero or one, toward `b.y`, as long as the slope is at most one. */
  lemma LineYStep(a: Point, b: Point, x: int)
    requires a.x < b.x && Abs(b.y - a.y) <= b.x - a.x
    ensures var y0, y1 := LineY(a, b, x), LineY(a, b, x + 1);
      if a.y <= b.y then y0 <= y1 <= y0 + 1 else y1 <= y0 <= y1 + 1
  {
    BlendStep(a, b, x);
    if a.y <= b.y {
      TruncDivStep(Blend(a, b, x), Blend(a, b, x + 1), b.x - a.x);
    } else {
      TruncDivStep(Blend(a, b, x + 1), Blend(a, b, x), b.x - a.x);
    }
  }

  /** Consecutive writes are neighbours: one step along the walking axis and
      at most one step, always toward the far endpoint, along the other. So
      the line has no gaps and its minor coordinate is monotone. */
  lemma LineConnected(p0: Point, p1: Point)
    requires p0 != p1
    ensures var s := Normalize(p0, p1); var px := LinePlot(p0, p1).pixels;
      forall k :: 0 <= k < |px| - 1 ==>
        var u, v := Frame(s.steep, px[k]), Frame(s.steep, px[k + 1]);
        v.x == u.x + 1 &&
        if s.a.y <= s.b.y then u.y <= v.y <= u.y + 1 else v.y <= u.y <= v.y + 1
  {
    var s := Normalize(p0, p1);
    var px := LinePlot(p0, p1).pixels;
    forall k | 0 <= k < |px| - 1
      ensures var u, v := Frame(s.steep, px[k]), Frame(s.steep, px[k + 1]);
        v.x == u.x + 1 &&
        if s.a.y <= s.b.y then u.y <= v.y <= u.y + 1 else v.y <= u.y <= v.y + 1
    {
      var x := s.a.x + k;
      FrameTwice(s.steep, Point(x, LineY(s.a, s.b, x)));
      FrameTwice(s.steep, Point(x + 1, LineY(s.a, s.b, x + 1)));
      assert Frame(s.steep, px[k]) == Point(x, LineY(s.a, s.b, x));
      assert Frame(s.steep, px[k + 1]) == Point(x + 1, LineY(s.a, s.b, x + 1));
      LineYStep(s.a, s.b, x);
    }
  }

  /** In the original frame consecutive writes are distinct 8-neighbours. */
  lemma LineNoGaps(p0: Point, p1: Point)
    requires p0 != p1
    ensures var px := LinePlot(p0, p1).pixels;
      forall k :: 0 <= k < |px| - 1 ==>
        px[k] != px[k + 1] && Abs(px[k + 1].x - px[k].x) <= 1 && Abs(px[k + 1].y - px[k].y) <= 1
  {
    LineConnected(p0, p1);
  }
}
