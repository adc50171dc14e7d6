/** core/kernel/display/rendering.c:25-51: Bresenham's line. The pixels are collected instead of written to the screen. */
module Line {
  import opened Arith

  newtype int32 = x: int | -0x8000_0000 <= x < 0x8000_0000
  type u32 = x: int | 0 <= x < 0x1_0000_0000

  datatype Point = Point(x: int, y: int)

  /** Twice the signed distance, scaled by the length of the longer side, after i x-steps and j y-steps: 2(dx j - dy i). */
  function Offset(dx: nat, dy: nat, i: nat, j: nat): int { 2 * (Times(dx, j) - Times(dy, i)) }

  predicate StepsX(dy: nat, e2: int) { e2 + dy > 0 }
  predicate StepsY(dx: nat, e2: int) { e2 < dx }

  /** Of two pixels at the same distance the one with the fewer steps along the shorter side is taken. */
  predicate TieTaken(dx: nat, dy: nat, o: int) { (dx > dy ==> o < dx) && (dy > dx ==> o + dy > 0) }

  /** i x-steps and j y-steps lead to a point within half a pixel of the ideal line, and every step moves along the longer side. */
  predicate OnLine(dx: nat, dy: nat, i: nat, j: nat, steps: nat) {
    && Abs(Offset(dx, dy, i, j)) <= Max(dx, dy) && TieTaken(dx, dy, Offset(dx, dy, i, j))
    && (if dx >= dy then i == steps else j == steps)
    && i <= dx && j <= dy
    && (dx == dy ==> i == j)
  }

  lemma OffsetNext(dx: nat, dy: nat, i: nat, j: nat)
    ensures Offset(dx, dy, i + 1, j) == Offset(dx, dy, i, j) - 2 * dy
    ensures Offset(dx, dy, i, j + 1) == Offset(dx, dy, i, j) + 2 * dx
    ensures Offset(dx, dy, i + 1, j + 1) == Offset(dx, dy, i, j) - 2 * dy + 2 * dx
  {
  }

  lemma OffsetTurned(dx: nat, dy: nat, i: nat, j: nat)
    ensures Offset(dy, dx, j, i) == -Offset(dx, dy, i, j)
  {
  }

  lemma OffsetDiagonal(d: nat, i: nat)
    ensures Offset(d, d, i, i) == 0
  {
  }

  /** A point on the line does not overshoot on the shorter side, and hits the end exactly when the longer side ends. */
  lemma ShortSide(longer: nat, shorter: nat, i: nat, j: nat)
    requires i <= longer && Abs(Offset(longer, shorter, i, j)) <= longer && shorter <= longer && longer > 0
    ensures j <= shorter
    ensures i == longer ==> j == shorter
  {
    TimesTurned(longer, shorter);
    TimesMore(shorter, i, longer);
    if j > shorter { TimesMore(longer, shorter, j); } else { TimesMore(longer, j, shorter); }
  }

  /** The two comparisons of one round keep the offset within half of the longer side. */
  lemma OffsetStays(dx: nat, dy: nat, o: int, e2: int)
    requires Abs(o) <= Max(dx, dy) && TieTaken(dx, dy, o) && e2 == o + 2 * dx - 2 * dy && (dx == dy ==> o == 0) && Max(dx, dy) > 0
    ensures var o' := o - (if StepsX(dy, e2) then 2 * dy else 0) + (if StepsY(dx, e2) then 2 * dx else 0);
            Abs(o') <= Max(dx, dy) && TieTaken(dx, dy, o')
    ensures dx >= dy ==> StepsX(dy, e2)
    ensures dx <= dy ==> StepsY(dx, e2)
  {
  }

  lemma RoundStays(dx: nat, dy: nat, i: nat, j: nat, steps: nat, e2: int)
    requires OnLine(dx, dy, i, j, steps) && steps < Max(dx, dy)
    requires e2 == Offset(dx, dy, i, j) + 2 * dx - 2 * dy
    ensures OnLine(dx, dy, if StepsX(dy, e2) then i + 1 else i, if StepsY(dx, e2) then j + 1 else j, steps + 1)
  {
    OffsetNext(dx, dy, i, j);
    if dx == dy { OffsetDiagonal(dx, i); }
    hide Offset;
    OffsetStays(dx, dy, Offset(dx, dy, i, j), e2);
    var i' := if StepsX(dy, e2) then i + 1 else i;
    var j' := if StepsY(dx, e2) then j + 1 else j;
    if dx >= dy {
      ShortSide(dx, dy, i', j');
    } else {
      OffsetTurned(dx, dy, i', j');
      ShortSide(dy, dx, j', i');
    }
  }

  lemma EndReached(dx: nat, dy: nat, i: nat, j: nat, steps: nat)
    requires OnLine(dx, dy, i, j, steps)
    ensures steps == Max(dx, dy) <==> i == dx && j == dy
    ensures steps <= Max(dx, dy)
  {
    if Max(dx, dy) > 0 {
      OffsetTurned(dx, dy, i, j);
      if dx >= dy { ShortSide(dx, dy, i, j); } else { ShortSide(dy, dx, j, i); }
    }
  }

  function Toward(from: int, to: int): int { if from < to then 1 else -1 }

  function Go(from: int, to: int, n: nat): int { if from < to then from + n else from - n }

  /** Pixel number k lies between the ends and within half a pixel of the ideal line. */
  predicate PixelOk(x0: int, y0: int, x1: int, y1: int, p: Point, k: nat) {
    var dx, dy := Abs(x1 - x0), Abs(y1 - y0);
    var i, j := Abs(p.x - x0), Abs(p.y - y0);
    && OnLine(dx, dy, i, j, k)
    && i + Abs(x1 - p.x) == dx && j + Abs(y1 - p.y) == dy
  }

  lemma StepsGive(x0: int, y0: int, x1: int, y1: int, i: nat, j: nat, k: nat)
    requires OnLine(Abs(x1 - x0), Abs(y1 - y0), i, j, k)
    ensures PixelOk(x0, y0, x1, y1, Point(Go(x0, x1, i), Go(y0, y1, j)), k)
    ensures Go(x0, x1, i) == x1 <==> i == Abs(x1 - x0)
    ensures Go(y0, y1, j) == y1 <==> j == Abs(y1 - y0)
    ensures i <= Abs(x1 - x0) && j <= Abs(y1 - y0)
  {
    hide Offset;
  }

  /** The value of 2 * err never leaves the range of int. */
  lemma ErrorFits(dx: nat, dy: nat, i: nat, j: nat, k: nat)
    requires OnLine(dx, dy, i, j, k) && 3 * Max(dx, dy) < 0x8000_0000
    ensures -0x8000_0000 < Offset(dx, dy, i, j) + 2 * dx - 2 * dy < 0x8000_0000
  {
    hide Offset;
  }

  /** No two places fit: the k-th pixel is determined by the ends. */
  lemma OnLineUnique(dx: nat, dy: nat, i: nat, j: nat, i': nat, j': nat, k: nat)
    requires OnLine(dx, dy, i, j, k) && OnLine(dx, dy, i', j', k)
    ensures i == i' && j == j'
  {
    if dx > dy {
      if j < j' { FurtherApart(dx, dy, i, j, j'); }
      if j' < j { FurtherApart(dx, dy, i, j', j); }
    } else if dy > dx {
      OffsetTurned(dx, dy, i, j);
      OffsetTurned(dx, dy, i', j);
      if i < i' { FurtherApart(dy, dx, j, i, i'); }
      if i' < i { FurtherApart(dy, dx, j, i', i); }
    }
    hide Offset;
  }

  lemma FurtherApart(longer: nat, shorter: nat, i: nat, j: nat, j': nat)
    requires j < j'
    ensures Offset(longer, shorter, i, j') >= Offset(longer, shorter, i, j) + 2 * longer
  {
    TimesMore(longer, j + 1, j');
  }

  lemma PixelUnique(x0: int, y0: int, x1: int, y1: int, p: Point, q: Point, k: nat)
    requires PixelOk(x0, y0, x1, y1, p, k) && PixelOk(x0, y0, x1, y1, q, k)
    ensures p == q
  {
    OnLineUnique(Abs(x1 - x0), Abs(y1 - y0), Abs(p.x - x0), Abs(p.y - y0), Abs(q.x - x0), Abs(q.y - y0), k);
    hide OnLine, Max, Offset;
  }

  /** A line has one set of pixels, ties included. */
  lemma DrawnUnique(x0: int, y0: int, x1: int, y1: int, a: seq<Point>, b: seq<Point>)
    requires Drawn(x0, y0, x1, y1, a) && Drawn(x0, y0, x1, y1, b) && |a| == |b|
    ensures a == b
  {
    forall k | 0 <= k < |a| ensures a[k] == b[k] { PixelUnique(x0, y0, x1, y1, a[k], b[k], k); }
  }

  predicate Near(p: Point, q: Point) { Abs(q.x - p.x) <= 1 && Abs(q.y - p.y) <= 1 }

  /** Every pixel is in its place, and neighbours in the sequence are neighbours on the screen. */
  predicate Drawn(x0: int, y0: int, x1: int, y1: int, pixels: seq<Point>) {
    && (forall k :: 0 <= k < |pixels| ==> PixelOk(x0, y0, x1, y1, pixels[k], k))
    && (forall k :: 0 < k < |pixels| ==> Near(pixels[k - 1], pixels[k]))
  }

  lemma DrawnMore(x0: int, y0: int, x1: int, y1: int, pixels: seq<Point>, p: Point)
    requires Drawn(x0, y0, x1, y1, pixels) && PixelOk(x0, y0, x1, y1, p, |pixels|)
    requires |pixels| > 0 ==> Near(pixels[|pixels| - 1], p)
    ensures Drawn(x0, y0, x1, y1, pixels + [p])
  {
    hide PixelOk, Near;
  }

  /** draw_line. No coordinate wraps, no int overflows, exactly max(dx, dy) + 1 pixels are plotted from the one end to the
      other without gaps, and each is within half a pixel of the ideal line. */
  method DrawLine(x0: u32, y0: u32, x1: u32, y1: u32) returns (pixels: seq<Point>)
    requires 3 * Max(Abs(x1 - x0), Abs(y1 - y0)) < 0x8000_0000
    ensures |pixels| == Max(Abs(x1 - x0), Abs(y1 - y0)) + 1
    ensures pixels[0] == Point(x0, y0) && pixels[|pixels| - 1] == Point(x1, y1)
    ensures Drawn(x0, y0, x1, y1, pixels)
  {
    var x: u32, y: u32 := x0, y0;
    var dx: int32 := (x1 - x0) as int32;
    var dy: int32 := (y1 - y0) as int32;
    if dx < 0 { dx := -dx; }
    if dy < 0 { dy := -dy; }
    ghost var w: nat, h: nat, i: nat, j: nat := dx as int, dy as int, 0, 0;
    var sx, sy := Toward(x0, x1), Toward(y0, y1);
    var err: int32 := dx - dy;
    pixels := [];
    OnLineStart(w, h);
    assert Go(x0, x1, 0) == x0 && Go(y0, y1, 0) == y0;
    assert Drawn(x0, y0, x1, y1, pixels);
    assert w == Abs(x1 - x0) && h == Abs(y1 - y0);
    hide Offset, OnLine, PixelOk, Drawn, Near, Go, Abs, Max, Toward;
    while true
      invariant x == Go(x0, x1, i) && y == Go(y0, y1, j)
      invariant OnLine(w, h, i, j, |pixels|)
      invariant 2 * err as int == Offset(w, h, i, j) + 2 * w - 2 * h
      invariant Drawn(x0, y0, x1, y1, pixels)
      invariant |pixels| == 0 ==> i == j == 0
      invariant |pixels| > 0 ==> pixels[0] == Point(x0, y0) && Near(pixels[|pixels| - 1], Point(x, y))
      decreases Max(w, h) - |pixels|
    {
      ghost var steps := |pixels|;
      EndReached(w, h, i, j, steps);
      StepsGive(x0, y0, x1, y1, i, j, steps);
      ErrorFits(w, h, i, j, steps);
      DrawnMore(x0, y0, x1, y1, pixels, Point(x, y));
      pixels := pixels + [Point(x, y)];
      if x == x1 && y == y1 { break; }
      x, y, err, i, j := Round(x, y, err, dx, dy, sx, sy, x0, y0, x1, y1, i, j, steps);
    }
  }

  /** The end of the loop body: at most one step in each direction. The ghost arguments are the ends and the steps so far. */
  method Round(x: u32, y: u32, err: int32, dx: int32, dy: int32, sx: int, sy: int,
               ghost x0: u32, ghost y0: u32, ghost x1: u32, ghost y1: u32, ghost i: nat, ghost j: nat, ghost steps: nat)
    returns (x': u32, y': u32, err': int32, ghost i': nat, ghost j': nat)
    requires dx as int == Abs(x1 - x0) && dy as int == Abs(y1 - y0) && 3 * Max(dx as int, dy as int) < 0x8000_0000
    requires sx == Toward(x0, x1) && sy == Toward(y0, y1)
    requires x == Go(x0, x1, i) && y == Go(y0, y1, j)
    requires OnLine(dx as int, dy as int, i, j, steps) && steps < Max(dx as int, dy as int)
    requires 2 * err as int == Offset(dx as int, dy as int, i, j) + 2 * dx as int - 2 * dy as int
    ensures x' == Go(x0, x1, i') && y' == Go(y0, y1, j')
    ensures OnLine(dx as int, dy as int, i', j', steps + 1)
    ensures 2 * err' as int == Offset(dx as int, dy as int, i', j') + 2 * dx as int - 2 * dy as int
    ensures Near(Point(x, y), Point(x', y'))
  {
    hide Offset, OnLine, PixelOk;
    ghost var w: nat, h: nat := dx as int, dy as int;
    ErrorFits(w, h, i, j, steps);
    var e2: int32 := 2 * err;
    RoundStays(w, h, i, j, steps, e2 as int);
    OffsetNext(w, h, i, j);
    i' := if e2 > -dy then i + 1 else i;
    j' := if e2 < dx then j + 1 else j;
    StepsGive(x0, y0, x1, y1, i', j', steps + 1);
    ErrorFits(w, h, i', j', steps + 1);
    x', y', err' := x, y, err;
    if e2 > -dy {
      err' := err' - dy;
      x' := x' + sx;
    }
    if e2 < dx {
      err' := err' + dx;
      y' := y' + sy;
    }
  }

  lemma OnLineStart(dx: nat, dy: nat)
    ensures OnLine(dx, dy, 0, 0, 0) && Offset(dx, dy, 0, 0) == 0
  {
  }
}
