/** `triangle(t0, t1, t2, image, color)`: flat-colour scanline fill. The
    vertices are sorted by y, and every row from the lowest vertex up to (but
    not including) the highest one is filled between a point on the long edge
    `t0 -> t2` and a point on the short edge of the current half. The image is
    modelled as the sequence of coordinates handed to `image.set`, in call
    order; the colour is the same for every write and is not modelled. */
module TriangleRaster {
  import opened Geometry

  /** The three vertices, in argument order. */
  datatype Triangle = Triangle(v0: Point, v1: Point, v2: Point)

  /** Sorted by y and spanning at least one row: the state past the early
      return and the sort. */
  predicate Tall(s: Triangle) {
    s.v0.y <= s.v1.y <= s.v2.y && s.v0.y < s.v2.y
  }

  /** All three vertices on one row: the early return. */
  predicate Flat(t: Triangle) {
    t.v0.y == t.v1.y && t.v0.y == t.v2.y
  }

  predicate SortedByY(t: Triangle) {
    t.v0.y <= t.v1.y <= t.v2.y
  }

  /** `s` lists the vertices of `t`, each once, in some order. */
  predicate Reorders(s: Triangle, t: Triangle) {
    s == t ||
    s == Triangle(t.v1, t.v0, t.v2) || s == Triangle(t.v2, t.v1, t.v0) ||
    s == Triangle(t.v0, t.v2, t.v1) || s == Triangle(t.v1, t.v2, t.v0) ||
    s == Triangle(t.v2, t.v0, t.v1)
  }

  function MinY(t: Triangle): int { Min(Min(t.v0.y, t.v1.y), t.v2.y) }
  function MaxY(t: Triangle): int { Max(Max(t.v0.y, t.v1.y), t.v2.y) }
  function MinX(t: Triangle): int { Min(Min(t.v0.x, t.v1.x), t.v2.x) }
  function MaxX(t: Triangle): int { Max(Max(t.v0.x, t.v1.x), t.v2.x) }

  /** The three conditional swaps `t0 <-> t1`, `t0 <-> t2`, `t1 <-> t2`: they
      order the vertices by y and only permute them. */
  function SortByY(t: Triangle): (s: Triangle)
    ensures SortedByY(s)
    ensures Reorders(s, t)
    ensures s.v0.y == MinY(t) && s.v2.y == MaxY(t)
    ensures MinX(s) == MinX(t) && MaxX(s) == MaxX(t)
    ensures Flat(s) <==> Flat(t)
  {
    var u := if t.v0.y > t.v1.y then Triangle(t.v1, t.v0, t.v2) else t;
    var w := if u.v0.y > u.v2.y then Triangle(u.v2, u.v1, u.v0) else u;
    if w.v1.y > w.v2.y then Triangle(w.v0, w.v2, w.v1) else w
  }

  /** `totalHeight`: at least one row once the flat case has returned. */
  function Height(s: Triangle): (h: int)
    requires Tall(s)
    ensures h >= 1
  {
    s.v2.y - s.v0.y
  }

  /** Past the early return, sorting leaves at least one row to fill. */
  lemma SortedTall(t: Triangle)
    requires !Flat(t)
    ensures Tall(SortByY(t))
  {
  }

  /** Row offset `i` belongs to the upper half: past the middle vertex, or
      the lower half is empty. */
  predicate SecondHalf(s: Triangle, i: int) {
    i > s.v1.y - s.v0.y || s.v1.y == s.v0.y
  }

  /** `segmentHeight`, the divisor of `beta`: never zero on any row the loop
      visits. */
  function SegmentHeight(s: Triangle, i: int): (h: int)
    requires Tall(s) && 0 <= i < Height(s)
    ensures h > 0
  {
    if SecondHalf(s, i) then s.v2.y - s.v1.y else s.v1.y - s.v0.y
  }

  /** `A.x`: the long edge `t0 -> t2` at `alpha = i / totalHeight`. */
  function BoundaryA(s: Triangle, i: int): (x: int)
    requires Tall(s) && 0 <= i < Height(s)
    ensures Min(s.v0.x, s.v2.x) <= x <= Max(s.v0.x, s.v2.x)
    ensures i == 0 ==> x == s.v0.x
  {
    EdgeX(s.v0, s.v2, i, Height(s))
  }

  /** `B.x`: the short edge of the current half at `beta`, the fraction of
      that half already covered. */
  function BoundaryB(s: Triangle, i: int): (x: int)
    requires Tall(s) && 0 <= i < Height(s)
    ensures SecondHalf(s, i) ==> Min(s.v1.x, s.v2.x) <= x <= Max(s.v1.x, s.v2.x)
    ensures !SecondHalf(s, i) ==> Min(s.v0.x, s.v1.x) <= x <= Max(s.v0.x, s.v1.x)
    ensures i == s.v1.y - s.v0.y ==> x == s.v1.x
  {
    var h := SegmentHeight(s, i);
    if SecondHalf(s, i) then EdgeX(s.v1, s.v2, i - (s.v1.y - s.v0.y), h)
    else EdgeX(s.v0, s.v1, i, h)
  }

  /** The inclusive column range filled on one row. */
  datatype Span = Span(lo: int, hi: int)

  /** Row offset `i` is filled from the smaller boundary to the larger one
      (after `swap(A, B)`); the run is never empty. */
  function RowSpan(s: Triangle, i: int): (sp: Span)
    requires Tall(s) && 0 <= i < Height(s)
    ensures sp.lo <= sp.hi
    ensures MinX(s) <= sp.lo && sp.hi <= MaxX(s)
  {
    Span(Min(BoundaryA(s, i), BoundaryB(s, i)), Max(BoundaryA(s, i), BoundaryB(s, i)))
  }

  /** The spans of all rows `0 .. totalHeight - 1`, bottom to top. */
  function Spans(s: Triangle): (spans: seq<Span>)
    requires Tall(s)
    ensures |spans| == Height(s)
  {
    seq(Height(s), i requires 0 <= i < Height(s) => RowSpan(s, i))
  }

  /** The writes `(lo, y), (lo + 1, y), …, (hi, y)` of one inner loop; empty
      when `hi < lo`. */
  function Run(y: int, lo: int, hi: int): seq<Point> {
    seq(if hi < lo then 0 else hi - lo + 1, k => Point(lo + k, y))
  }

  /** The writes of the first `n` rows of a scanline fill whose row `y0 + k`
      covers `spans[k]`. */
  function Scan(y0: int, spans: seq<Span>, n: int): seq<Point>
    requires 0 <= n <= |spans|
    decreases n
  {
    if n == 0 then []
    else Scan(y0, spans, n - 1) + Run(y0 + n - 1, spans[n - 1].lo, spans[n - 1].hi)
  }

  /** The writes of `triangle(t0, t1, t2, …)`. */
  function TriangleFill(t: Triangle): seq<Point> {
    if Flat(t) then []
    else var s := SortByY(t); Scan(s.v0.y, Spans(s), Height(s))
  }

  /** The three in-place swaps at the head of the routine, on local copies
      of the by-value vertices. */
  method SortVertices(t0: Point, t1: Point, t2: Point) returns (a: Point, b: Point, c: Point)
    ensures Triangle(a, b, c) == SortByY(Triangle(t0, t1, t2))
  {
    a, b, c := t0, t1, t2;
    if a.y > b.y {
      a, b := b, a;
    }
    if a.y > c.y {
      a, c := c, a;
    }
    if b.y > c.y {
      b, c := c, b;
    }
  }

  /** The body of the row loop up to the inner loop: choose the half,
      compute `alpha` and `beta` over strictly positive divisors, interpolate
      `A` and `B`, and order them so that `A.x <= B.x`. */
  method RowBounds(a: Point, b: Point, c: Point, i: int) returns (ax: int, bx: int)
    requires Tall(Triangle(a, b, c))
    requires 0 <= i < c.y - a.y
    ensures Span(ax, bx) == RowSpan(Triangle(a, b, c), i)
  {
    var totalHeight := c.y - a.y;
    var secondHalf := i > b.y - a.y || b.y == a.y;
    var segmentHeight := if secondHalf then c.y - b.y else b.y - a.y;
    ax := EdgeX(a, c, i, totalHeight);
    if secondHalf {
      bx := EdgeX(b, c, i - (b.y - a.y), segmentHeight);
    } else {
      bx := EdgeX(a, b, i, segmentHeight);
    }
    if ax > bx {
      ax, bx := bx, ax;
    }
  }

  /** The inner loop `for (int j = A.x; j <= B.x; j++) image.set(j, y, …)`:
      appends the run of row `y` from column `lo` to column `hi`. */
  method FillRow(writes0: seq<Point>, y: int, lo: int, hi: int) returns (writes: seq<Point>)
    ensures writes == writes0 + Run(y, lo, hi)
  {
    writes := writes0;
    var j := lo;
    while j <= hi
      invariant lo <= j && (j <= hi + 1 || j == lo)
      invariant writes == writes0 + Run(y, lo, j - 1)
    {
      RunSnoc(writes0, y, lo, j);
      writes := writes + [Point(j, y)];
      j := j + 1;
    }
    assert Run(y, lo, j - 1) == Run(y, lo, hi);
  }

  /** The routine itself: early return, the vertex sort, then the rows. */
  method Fill(t0: Point, t1: Point, t2: Point) returns (writes: seq<Point>)
    ensures writes == TriangleFill(Triangle(t0, t1, t2))
  {
    if t0.y == t1.y && t0.y == t2.y {
      return [];
    }
    var a, b, c := SortVertices(t0, t1, t2);
    writes := FillSorted(a, b, c);
  }

  /** The row loop over offsets `i = 0 .. totalHeight - 1` of a triangle
      whose vertices are sorted by y, with one inner loop per row. */
  method FillSorted(a: Point, b: Point, c: Point) returns (writes: seq<Point>)
    requires Tall(Triangle(a, b, c))
    ensures writes == Scan(a.y, Spans(Triangle(a, b, c)), c.y - a.y)
  {
    ghost var spans := Spans(Triangle(a, b, c));
    writes := [];
    var totalHeight := c.y - a.y;
    var i := 0;
    while i < totalHeight
      invariant 0 <= i <= totalHeight == |spans|
      invariant writes == Scan(a.y, spans, i)
    {
      var ax, bx := RowBounds(a, b, c, i);
      assert spans[i] == Span(ax, bx);
      writes := FillRow(writes, a.y + i, ax, bx);
      i := i + 1;
    }
  }

  /** One more step of the inner loop extends the run by one pixel. */
  lemma RunSnoc(done: seq<Point>, y: int, lo: int, hi: int)
    requires lo <= hi
    ensures done + Run(y, lo, hi) == done + Run(y, lo, hi - 1) + [Point(hi, y)]
  {
    assert Run(y, lo, hi) == Run(y, lo, hi - 1) + [Point(hi, y)];
  }

  // ---- properties of a scanline fill ----

  /** A pixel is written exactly when its row is one of the first `n`
      scanned rows and its column lies in that row's inclusive span. */
  lemma {:induction false} ScanMembership(y0: int, spans: seq<Span>, n: int, p: Point)
    requires 0 <= n <= |spans|
    ensures p in Scan(y0, spans, n) <==>
      var i := p.y - y0; 0 <= i < n && spans[i].lo <= p.x <= spans[i].hi
    decreases n
  {
    if n > 0 {
      ScanMembership(y0, spans, n - 1, p);
      var sp := spans[n - 1];
      var run := Run(y0 + n - 1, sp.lo, sp.hi);
      if p.y == y0 + n - 1 && sp.lo <= p.x <= sp.hi {
        assert run[p.x - sp.lo] == p;
      }
    }
  }

  /** Pixel `p` precedes pixel `q` in row-major order. */
  predicate Before(p: Point, q: Point) {
    p.y < q.y || (p.y == q.y && p.x < q.x)
  }

  /** The writes `w` come in strictly increasing row-major order. */
  predicate RowMajor(w: seq<Point>) {
    forall j, k :: 0 <= j < k < |w| ==> Before(w[j], w[k])
  }

  /** A scanline fill writes in strictly increasing row-major order. */
  lemma {:induction false} ScanOrdered(y0: int, spans: seq<Span>, n: int)
    requires 0 <= n <= |spans|
    ensures RowMajor(Scan(y0, spans, n))
    decreases n
  {
    if n > 0 {
      ScanOrdered(y0, spans, n - 1);
      var sp := spans[n - 1];
      var prev, run := Scan(y0, spans, n - 1), Run(y0 + n - 1, sp.lo, sp.hi);
      var all := prev + run;
      assert all == Scan(y0, spans, n);
      forall j, k | 0 <= j < k < |all| ensures Before(all[j], all[k]) {
        if k < |prev| {
          assert all[j] == prev[j] && all[k] == prev[k];
        } else if j >= |prev| {
          assert all[j] == run[j - |prev|] && all[k] == run[k - |prev|];
          assert run[j - |prev|].x < run[k - |prev|].x;
        } else {
          ScanMembership(y0, spans, n - 1, prev[j]);
          assert prev[j].y < y0 + n - 1;
          assert all[j] == prev[j] && all[k] == run[k - |prev|];
          assert run[k - |prev|].y == y0 + n - 1;
        }
      }
    }
  }

  // ---- properties of the triangle fill ----

  /** The exact pixel set of a fill: rows `t0.y .. t2.y - 1` of the sorted
      triangle, each between its two boundary points inclusive. */
  lemma TriangleFillExact(t: Triangle, p: Point)
    requires !Flat(t)
    ensures var s := SortByY(t); var i := p.y - s.v0.y;
      p in TriangleFill(t) <==> 0 <= i < Height(s) && RowSpan(s, i).lo <= p.x <= RowSpan(s, i).hi
  {
    var s := SortByY(t);
    ScanMembership(s.v0.y, Spans(s), Height(s), p);
  }

  /** A triangle with all three vertices on one row writes nothing. */
  lemma FlatWritesNothing(t: Triangle)
    requires Flat(t)
    ensures TriangleFill(t) == []
  {
  }

  /** Rows written are exactly those from the lowest vertex's y up to, but
      excluding, the highest vertex's y, and each of them gets a non-empty
      run: both of its end pixels are written. */
  lemma TriangleRows(t: Triangle)
    ensures forall p :: p in TriangleFill(t) ==> MinY(t) <= p.y < MaxY(t)
    ensures !Flat(t) ==> var s := SortByY(t);
      forall i :: 0 <= i < Height(s) ==>
        Point(RowSpan(s, i).lo, s.v0.y + i) in TriangleFill(t) &&
        Point(RowSpan(s, i).hi, s.v0.y + i) in TriangleFill(t)
  {
    if !Flat(t) {
      var s := SortByY(t);
      forall p | p in TriangleFill(t) ensures MinY(t) <= p.y < MaxY(t) {
        TriangleFillExact(t, p);
      }
      forall i | 0 <= i < Height(s) ensures Point(RowSpan(s, i).lo, s.v0.y + i) in TriangleFill(t) {
        TriangleFillExact(t, Point(RowSpan(s, i).lo, s.v0.y + i));
      }
      forall i | 0 <= i < Height(s) ensures Point(RowSpan(s, i).hi, s.v0.y + i) in TriangleFill(t) {
        TriangleFillExact(t, Point(RowSpan(s, i).hi, s.v0.y + i));
      }
    }
  }

  /** Every written pixel lies in the bounding box of the three vertices. */
  lemma TriangleInBox(t: Triangle)
    ensures forall p :: p in TriangleFill(t) ==>
      MinX(t) <= p.x <= MaxX(t) && MinY(t) <= p.y < MaxY(t)
  {
    TriangleRows(t);
    if !Flat(t) {
      forall p | p in TriangleFill(t) ensures MinX(t) <= p.x <= MaxX(t) {
        TriangleFillExact(t, p);
      }
    }
  }

  /** Each pixel is written at most once, in row-major order. */
  lemma TriangleWritesOnce(t: Triangle)
    ensures RowMajor(TriangleFill(t))
    ensures var w := TriangleFill(t); forall j, k :: 0 <= j < k < |w| ==> w[j] != w[k]
  {
    if !Flat(t) {
      var s := SortByY(t);
      ScanOrdered(s.v0.y, Spans(s), Height(s));
    }
  }

  /** `r` is `s` with two vertices on the same row exchanged. */
  predicate SameRowSwap(s: Triangle, r: Triangle) {
    (r == Triangle(s.v1, s.v0, s.v2) && s.v0.y == s.v1.y) ||
    (r == Triangle(s.v0, s.v2, s.v1) && s.v1.y == s.v2.y)
  }

  /** Exchanging two vertices on the same row only exchanges the roles of
      the boundary points `A` and `B`, so the row keeps its span. */
  lemma RowSpanSwapped(s: Triangle, r: Triangle, i: int)
    requires Tall(s) && 0 <= i < Height(s)
    requires SameRowSwap(s, r)
    ensures Tall(r) && Height(r) == Height(s)
    ensures RowSpan(r, i) == RowSpan(s, i)
  {
    if r == Triangle(s.v1, s.v0, s.v2) && s.v0.y == s.v1.y {
      // both halves collapse to the upper one, over the whole height
      assert SecondHalf(s, i) && SecondHalf(r, i);
      assert BoundaryA(r, i) == BoundaryB(s, i);
      assert BoundaryB(r, i) == BoundaryA(s, i);
    } else {
      // both halves collapse to the lower one, over the whole height
      assert !SecondHalf(s, i) && !SecondHalf(r, i);
      assert BoundaryA(r, i) == BoundaryB(s, i);
      assert BoundaryB(r, i) == BoundaryA(s, i);
    }
  }

  /** The sorted order is unique up to exchanging two vertices on one row. */
  lemma SortReordered(t: Triangle, u: Triangle)
    requires !Flat(t) && Reorders(u, t)
    ensures SortByY(u) == SortByY(t) || SameRowSwap(SortByY(t), SortByY(u))
  {
  }

  /** The fill does not depend on the order in which the vertices are passed. */
  lemma TriangleOrderIndependent(t: Triangle, u: Triangle)
    requires Reorders(u, t)
    ensures TriangleFill(u) == TriangleFill(t)
  {
    if !Flat(t) {
      var s, r := SortByY(t), SortByY(u);
      SortReordered(t, u);
      if r != s {
        RowSpanSwapped(s, r, 0);
        forall i | 0 <= i < Height(s) ensures Spans(r)[i] == Spans(s)[i] {
          RowSpanSwapped(s, r, i);
        }
        assert Spans(r) == Spans(s);
      }
    }
  }
}
