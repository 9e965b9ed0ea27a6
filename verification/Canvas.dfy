/** Filling and line drawing on a monochrome screen.

    The drawing base class leaves pixel storage to its subclasses; here it is the set of pixels that are set.
    A pixel outside the screen reads as set and cannot be changed, as unsigned coordinates make it.
 */
module Canvas {
  import opened Bytes
  import opened Line

  // ---------------------------------------------------------------- connectedness

  predicate Adjacent(p: Point, q: Point) {
    || (p.x == q.x && (p.y == q.y + 1 || q.y == p.y + 1))
    || (p.y == q.y && (p.x == q.x + 1 || q.x == p.x + 1))
  }

  /** A walk from p to q that never leaves the region. */
  ghost predicate IsPath(region: set<Point>, path: seq<Point>, p: Point, q: Point) {
    && path != [] && path[0] == p && path[|path| - 1] == q
    && (forall i :: 0 <= i < |path| ==> path[i] in region)
    && (forall i :: 0 < i < |path| ==> Adjacent(path[i - 1], path[i]))
  }

  ghost predicate Connected(region: set<Point>, p: Point, q: Point) {
    exists path :: IsPath(region, path, p, q)
  }

  lemma ConnectedToItself(region: set<Point>, p: Point)
    requires p in region
    ensures Connected(region, p, p)
  {
    assert IsPath(region, [p], p, p);
  }

  lemma ConnectedStep(region: set<Point>, p: Point, q: Point, r: Point)
    requires Connected(region, p, q) && r in region && Adjacent(q, r)
    ensures Connected(region, p, r)
  {
    var path :| IsPath(region, path, p, q);
    assert IsPath(region, path + [r], p, r);
  }

  lemma ConnectedJoin(region: set<Point>, p: Point, q: Point, r: Point)
    requires Connected(region, p, q) && Connected(region, q, r)
    ensures Connected(region, p, r)
  {
    var a :| IsPath(region, a, p, q);
    var b :| IsPath(region, b, q, r);
    var path := a + b[1..];
    forall i | 0 < i < |path|
      ensures Adjacent(path[i - 1], path[i])
    {
      if i >= |a| {
        var j := i - |a| + 1;
        assert path[i] == b[j] && path[i - 1] == b[j - 1];
      }
    }
    assert IsPath(region, path, p, r);
  }

  lemma ConnectedInLarger(small: set<Point>, large: set<Point>, p: Point, q: Point)
    requires small <= large && Connected(small, p, q)
    ensures Connected(large, p, q)
  {
    var path :| IsPath(small, path, p, q);
    assert IsPath(large, path, p, q);
  }

  /** Two pixels of a clear stretch of one row are connected. */
  lemma {:induction false} RowConnected(region: set<Point>, y: int, a: int, b: int)
    requires forall i :: (a <= i <= b || b <= i <= a) ==> Point(i, y) in region
    ensures Connected(region, Point(a, y), Point(b, y))
    decreases if a < b then b - a else a - b
  {
    if a == b {
      ConnectedToItself(region, Point(a, y));
    } else {
      var c := if a < b then b - 1 else b + 1;
      RowConnected(region, y, a, c);
      ConnectedStep(region, Point(a, y), Point(c, y), Point(b, y));
    }
  }

  /** A border is respected: if no clear pixel outside `inside` touches a clear pixel inside it, nothing outside
      is connected to a pixel inside. */
  lemma BorderHolds(region: set<Point>, inside: set<Point>, p: Point, q: Point)
    requires p in inside && Connected(region, p, q)
    requires forall a, b :: a in inside && a in region && b in region && Adjacent(a, b) ==> b in inside
    ensures q in inside && q in region
  {
    var path :| IsPath(region, path, p, q);
    PathStaysInside(region, inside, path, |path| - 1);
  }

  lemma {:induction false} PathStaysInside(region: set<Point>, inside: set<Point>, path: seq<Point>, k: nat)
    requires k < |path| && IsPath(region, path, path[0], path[|path| - 1]) && path[0] in inside
    requires forall a, b :: a in inside && a in region && b in region && Adjacent(a, b) ==> b in inside
    ensures path[k] in inside
  {
    if k > 0 {
      PathStaysInside(region, inside, path, k - 1);
    }
  }

  // ---------------------------------------------------------------- the screen

  const UNSIGNED_SPAN: nat := 0x1_0000_0000

  /** Conversion of an unsigned coordinate to a signed one. */
  function Signed(v: nat): (s: int)
    requires v < UNSIGNED_SPAN
  {
    if v < 0x8000_0000 then v else v - UNSIGNED_SPAN
  }

  class Canvas {
    const width: byte
    const height: byte
    var ink: set<Point>
    /** Every pixel that was asked for, in order. */
    ghost var drawn: seq<Point>

    constructor (width: byte, height: byte, ink: set<Point>)
      ensures this.width == width && this.height == height && this.ink == ink && drawn == []
    {
      this.width, this.height, this.ink, drawn := width, height, ink, [];
    }

    predicate YVisible(y: int) { 0 <= y < height }

    predicate XVisible(x: int) { 0 <= x < width }

    function BoundX(x: int): int {
      var b := if x < 0 then 0 else x;
      if b >= width then width - 1 else b
    }

    predicate TstPixel(x: int, y: int)
      reads this`ink
    {
      OffOrSet(ink, x, y)
    }

    method SetPixel(x: int, y: int)
      modifies this
      ensures drawn == old(drawn) + [Point(x, y)]
      ensures ink == if XVisible(x) && YVisible(y) then old(ink) + {Point(x, y)} else old(ink)
    {
      drawn := drawn + [Point(x, y)];
      if XVisible(x) && YVisible(y) {
        ink := ink + {Point(x, y)};
      }
    }

    /** The clear pixels of the screen. */
    ghost function Clear(): (c: set<Point>)
      reads this`ink
      ensures forall p :: p in c <==> !TstPixel(p.x, p.y)
    {
      (set i, j | 0 <= i < width && 0 <= j < height :: Point(i, j)) - ink
    }

    /** sethline: both ends are brought onto the screen and are drawn. */
    method SetHLine(xmin: int, xmax: int, y: int)
      modifies this
      ensures !YVisible(y) ==> ink == old(ink)
      ensures YVisible(y) ==> forall p ::
        p in ink <==> p in old(ink) || (p.y == y && BoundX(xmin) <= p.x <= BoundX(xmax) && XVisible(p.x))
    {
      if !YVisible(y) {
        return;
      }
      var i, end := BoundX(xmin), BoundX(xmax);
      while i <= end
        invariant BoundX(xmin) <= i
        invariant i <= end + 1 || i == BoundX(xmin)
        invariant forall p :: p in ink <==> p in old(ink) || (p.y == y && BoundX(xmin) <= p.x < i && XVisible(p.x))
        decreases end - i
      {
        SetPixel(i, y);
        i := i + 1;
      }
    }

    /** tsthline: false, and the position of the first clear pixel, if there is one before the right end. */
    method TstHLine(xmin: int, xmax: int, y: int) returns (full: bool, pos: int)
      ensures !full ==> FirstClear(ink, xmin, xmax, y, pos)
      ensures full ==> NoneClear(ink, xmin, xmax, y)
    {
      pos := 0;
      if !YVisible(y) {
        return true, 0;
      }
      var i := BoundX(xmin);
      while i < BoundX(xmax)
        invariant BoundX(xmin) <= i
        invariant forall k :: BoundX(xmin) <= k < i ==> OffOrSet(ink, k, y)
      {
        if !TstPixel(i, y) {
          return false, i;
        }
        i := i + 1;
      }
      full := true;
    }

    /** tsthedge: the clear stretch around x; when x itself is set the stretch is empty. */
    method TstHEdge(x: int, y: int) returns (xmin: int, xmax: int)
      ensures Stretch(ink, x, y, xmin, xmax)
    {
      var min, max := x, x;
      while !TstPixel(min, y)
        invariant min <= x && forall i :: min < i <= x ==> !OffOrSet(ink, i, y)
        decreases min
      {
        min := min - 1;
      }
      while !TstPixel(max, y)
        invariant x <= max && forall i :: x <= i < max ==> !OffOrSet(ink, i, y)
        decreases width - max
      {
        max := max + 1;
      }
      xmin, xmax := min + 1, max;
    }

    /** What a fill from (x, y) may have done to a screen that started with the clear pixels `clear`. */
    ghost predicate Filled(clear: set<Point>, before: set<Point>, x: int, y: int)
      reads this`ink
    {
      FilledFrom(clear, before, ink, Point(x, y))
    }

    ghost predicate FilledFrom(clear: set<Point>, before: set<Point>, after: set<Point>, seed: Point) {
      before <= after && forall p :: p in after && p !in before ==> Connected(clear, seed, p)
    }

    predicate OffOrSet(pixels: set<Point>, x: int, y: int) {
      !XVisible(x) || !YVisible(y) || Point(x, y) in pixels
    }

    /** The clear pixels around x are those from xmin up to but not including xmax; none if x is not clear. */
    ghost predicate Stretch(pixels: set<Point>, x: int, y: int, xmin: int, xmax: int) {
      && xmin <= x + 1 && x <= xmax && OffOrSet(pixels, xmin - 1, y) && OffOrSet(pixels, xmax, y)
      && (forall i :: xmin <= i < xmax ==> !OffOrSet(pixels, i, y))
      && (OffOrSet(pixels, x, y) <==> xmin == x + 1) && (OffOrSet(pixels, x, y) <==> xmax == x)
    }

    /** The leftmost clear pixel of row y between the ends of a stretch, as far as they are on the screen. */
    ghost predicate FirstClear(pixels: set<Point>, xmin: int, xmax: int, y: int, pos: int) {
      && BoundX(xmin) <= pos < BoundX(xmax) && !OffOrSet(pixels, pos, y)
      && forall k :: BoundX(xmin) <= k < pos ==> OffOrSet(pixels, k, y)
    }

    ghost predicate NoneClear(pixels: set<Point>, xmin: int, xmax: int, y: int) {
      forall i :: !FirstClear(pixels, xmin, xmax, y, i)
    }

    lemma StretchUnique(pixels: set<Point>, x: int, y: int, a: int, b: int, c: int, d: int)
      requires Stretch(pixels, x, y, a, b) && Stretch(pixels, x, y, c, d)
      ensures a == c && b == d
    {
      assert OffOrSet(pixels, a - 1, y) && OffOrSet(pixels, b, y);
      assert OffOrSet(pixels, c - 1, y) && OffOrSet(pixels, d, y);
    }

    /** The stretch of (x, y) has been drawn, and so has the first clear pixel next to it on the row ny. */
    ghost predicate Reached(before: set<Point>, after: set<Point>, x: int, y: int, ny: int) {
      forall xmin, xmax :: Stretch(before, x, y, xmin, xmax) ==>
        && (forall i :: xmin <= i < xmax ==> Point(i, y) in after)
        && (forall pos :: FirstClear(before, xmin, xmax, ny, pos) && XVisible(ny) ==> Point(pos, ny) in after)
    }

    /** Every pixel that was drawn was on the screen, and its stretch in the first picture has been drawn whole. */
    ghost predicate DrawnWhole(before: set<Point>, after: set<Point>) {
      before <= after && forall p :: p in after && p !in before ==>
        XVisible(p.x) && YVisible(p.y)
        && forall xmin, xmax :: Stretch(before, p.x, p.y, xmin, xmax) ==> forall i :: xmin <= i < xmax ==> Point(i, p.y) in after
    }

    /** From every pixel that was drawn the fill has gone on to the rows above and below it. */
    ghost predicate GoesOn(before: set<Point>, after: set<Point>) {
      forall p :: p in after && p !in before ==>
        Reached(before, after, p.x, p.y, p.y + 1) && Reached(before, after, p.x, p.y, p.y - 1)
    }

    /** What is still clear lies in a stretch of which nothing has been drawn. */
    lemma StretchKept(before: set<Point>, mid: set<Point>, x: int, y: int, xmin: int, xmax: int)
      requires DrawnWhole(before, mid) && Stretch(before, x, y, xmin, xmax) && !OffOrSet(mid, x, y)
      ensures Stretch(mid, x, y, xmin, xmax)
    {
      assert !OffOrSet(before, x, y);
      forall i | xmin <= i < xmax
        ensures !OffOrSet(mid, i, y)
      {
        assert !OffOrSet(before, i, y);
        if Point(i, y) in mid {
          assert Stretch(before, Point(i, y).x, Point(i, y).y, xmin, xmax);
        }
      }
    }

    /** A pixel of the next row that was first clear is first clear still, or it has been drawn. */
    lemma FirstClearKept(before: set<Point>, mid: set<Point>, xmin: int, xmax: int, ny: int, pos: int)
      requires before <= mid && FirstClear(before, xmin, xmax, ny, pos)
      ensures Point(pos, ny) in mid || FirstClear(mid, xmin, xmax, ny, pos)
    {
      forall k | BoundX(xmin) <= k < pos
        ensures OffOrSet(mid, k, ny)
      {
        assert OffOrSet(before, k, ny);
      }
    }

    lemma ReachedEarlier(before: set<Point>, mid: set<Point>, after: set<Point>, x: int, y: int, ny: int)
      requires DrawnWhole(before, mid) && mid <= after && !OffOrSet(mid, x, y) && Reached(mid, after, x, y, ny)
      ensures Reached(before, after, x, y, ny)
    {
      forall xmin, xmax | Stretch(before, x, y, xmin, xmax)
        ensures Stretch(mid, x, y, xmin, xmax)
        ensures forall pos :: FirstClear(before, xmin, xmax, ny, pos) && XVisible(ny) ==> Point(pos, ny) in after
      {
        StretchKept(before, mid, x, y, xmin, xmax);
        forall pos | FirstClear(before, xmin, xmax, ny, pos) && XVisible(ny)
          ensures Point(pos, ny) in after
        {
          FirstClearKept(before, mid, xmin, xmax, ny, pos);
        }
      }
    }

    lemma DrawnWholeJoins(before: set<Point>, mid: set<Point>, after: set<Point>)
      requires DrawnWhole(before, mid) && DrawnWhole(mid, after)
      ensures DrawnWhole(before, after)
    {
      forall p, xmin, xmax | p in after && p !in before && Stretch(before, p.x, p.y, xmin, xmax)
        ensures forall i :: xmin <= i < xmax ==> Point(i, p.y) in after
      {
        if p !in mid {
          StretchKept(before, mid, p.x, p.y, xmin, xmax);
        }
      }
    }

    /** A second fill goes on from everything it draws, also as seen from before the first one. */
    lemma GoesOnEarlier(before: set<Point>, mid: set<Point>, after: set<Point>, p: Point)
      requires DrawnWhole(before, mid) && DrawnWhole(mid, after) && GoesOn(mid, after) && p in after && p !in mid
      ensures Reached(before, after, p.x, p.y, p.y + 1) && Reached(before, after, p.x, p.y, p.y - 1)
    {
      ReachedEarlier(before, mid, after, p.x, p.y, p.y + 1);
      ReachedEarlier(before, mid, after, p.x, p.y, p.y - 1);
    }

    /** The three parts of a fill: the row of the seed, the fill above and the fill below. */
    lemma PartsGoOn(before: set<Point>, row: set<Point>, mid: set<Point>, after: set<Point>)
      requires DrawnWhole(before, row) && DrawnWhole(row, mid) && DrawnWhole(mid, after)
      requires GoesOn(row, mid) && GoesOn(mid, after)
      requires forall p :: p in row && p !in before ==>
        Reached(before, after, p.x, p.y, p.y + 1) && Reached(before, after, p.x, p.y, p.y - 1)
      ensures DrawnWhole(before, after) && GoesOn(before, after)
    {
      DrawnWholeJoins(before, row, mid);
      DrawnWholeJoins(before, mid, after);
      forall p | p in after && p !in before
        ensures Reached(before, after, p.x, p.y, p.y + 1) && Reached(before, after, p.x, p.y, p.y - 1)
      {
        if p !in mid {
          GoesOnEarlier(before, mid, after, p);
        } else if p !in row {
          GoesOnEarlier(before, row, mid, p);
        }
      }
    }

    lemma StretchShared(pixels: set<Point>, x: int, px: int, y: int, xmin: int, xmax: int)
      requires Stretch(pixels, x, y, xmin, xmax) && xmin <= px < xmax
      ensures Stretch(pixels, px, y, xmin, xmax)
    {
    }

    /** Drawing the stretch of the seed draws it whole. */
    lemma RowDrawnWhole(before: set<Point>, after: set<Point>, x: int, y: int, xmin: int, xmax: int)
      requires before <= after && Stretch(before, x, y, xmin, xmax)
      requires forall i :: xmin <= i < xmax ==> Point(i, y) in after
      requires forall p :: p in after && p !in before ==> p.y == y && xmin <= p.x < xmax
      ensures DrawnWhole(before, after)
    {
      forall p, a, b | p in after && p !in before && Stretch(before, p.x, p.y, a, b)
        ensures a == xmin && b == xmax
      {
        StretchShared(before, x, p.x, y, xmin, xmax);
        StretchUnique(before, p.x, y, a, b, xmin, xmax);
      }
      forall p | p in after && p !in before
        ensures XVisible(p.x) && YVisible(p.y)
      {
        assert !OffOrSet(before, p.x, y);
      }
    }

    /** A clear pixel on the row next to y that can be reached from (x, y) through clear pixels. */
    ghost predicate NextSeed(clear: set<Point>, x: int, y: int, next: Point)
    {
      XVisible(next.x) && 0 <= next.y && Connected(clear, Point(x, y), next)
    }

    /** The part of setfill before its recursive calls: the row of the seed is drawn, after the rows above and
        below it have been searched for a clear pixel. */
    method FillRow(x: int, y: nat)
        returns (above: bool, below: bool, xabove: int, xbelow: int, ghost xmin: int, ghost xmax: int)
      requires XVisible(y)
      modifies this
      ensures old(ink) <= ink
      ensures XVisible(x) ==> Filled(old(Clear()), old(ink), x, y)
      ensures XVisible(x) && YVisible(y) ==> Point(x, y) in ink
      ensures XVisible(x) && old(TstPixel(x, y)) ==> ink == old(ink)
      ensures !XVisible(x) && YVisible(y) ==> ink == old(ink) + {Point(BoundX(x), y)}
      ensures !YVisible(y) ==> ink == old(ink)
      ensures Stretch(old(ink), x, y, xmin, xmax) && forall i :: xmin <= i < xmax ==> Point(i, y) in ink
      ensures XVisible(x) ==> forall p :: p in ink && p !in old(ink) ==> p.y == y && xmin <= p.x < xmax
      ensures if above then FirstClear(old(ink), xmin, xmax, y + 1, xabove)
        else NoneClear(old(ink), xmin, xmax, y + 1)
      ensures if below then FirstClear(old(ink), xmin, xmax, y - 1, xbelow)
        else NoneClear(old(ink), xmin, xmax, y - 1)
      ensures above || below ==> Point(x, y) in old(Clear())
      ensures above ==> NextSeed(old(Clear()), x, y, Point(xabove, y + 1))
      ensures below ==> NextSeed(old(Clear()), x, y, Point(xbelow, y - 1))
    {
      var left, right := TstHEdge(x, y);
      xmin, xmax := left, right;
      above, xabove := TstHLine(left, right, y + 1);
      below, xbelow := TstHLine(left, right, y - 1);
      above, below := !above, !below;
      ghost var clear, before := Clear(), ink;
      forall i | xmin <= i < xmax
        ensures Point(i, y) in clear && XVisible(i)
      {
        assert !OffOrSet(ink, i, y) && !TstPixel(Point(i, y).x, Point(i, y).y);
      }
      if above {
        NeighbourConnected(clear, x, y, xabove, y + 1, xmin, xmax);
      }
      if below {
        NeighbourConnected(clear, x, y, xbelow, y - 1, xmin, xmax);
      }
      SetHLine(left, right, y);
      if Point(x, y) in clear {
        StretchIsConnected(clear, before, x, y, xmin, xmax);
      }
    }

    /** setfill. It always ends, and every pixel it changes was clear and is connected to the seed through
        pixels that were clear when it was called. From everything it draws it goes on: the whole stretch around
        the pixel is drawn, and the first pixel next to it that was clear above and below. The seed is unsigned and
        is searched from as a signed number; the check of its row is against the width. A seed off the screen to
        the right is not filled from but draws the last pixel of its row, and one that turns negative the first
        pixel. For 2^31 - 1 the search would overflow. */
    method SetFill(ux: nat, uy: nat)
      requires ux < UNSIGNED_SPAN && uy < UNSIGNED_SPAN && ux != 0x7FFF_FFFF
      modifies this
      ensures old(ink) <= ink
      ensures XVisible(ux) ==> Filled(old(Clear()), old(ink), ux, uy)
      ensures XVisible(ux) && old(TstPixel(ux, uy)) ==> ink == old(ink)
      ensures XVisible(ux) && YVisible(uy) && XVisible(uy) ==> Point(ux, uy) in ink
      ensures !XVisible(ux) && YVisible(uy) && XVisible(uy) ==>
        ink == old(ink) + {Point(if ux < 0x8000_0000 then width - 1 else 0, uy)}
      ensures !YVisible(uy) || !XVisible(uy) ==> ink == old(ink)
      ensures XVisible(uy) ==>
        Reached(old(ink), ink, Signed(ux), uy, uy + 1) && Reached(old(ink), ink, Signed(ux), uy, uy - 1)
      ensures XVisible(ux) ==> DrawnWhole(old(ink), ink) && GoesOn(old(ink), ink)
      decreases Clear(), 1
    {
      if XVisible(Signed(uy)) {
        FillFrom(Signed(ux), Signed(uy));
      }
    }

    /** What setfill does once its row has passed the check. */
    method FillFrom(x: int, y: nat)
      requires XVisible(y)
      modifies this
      ensures old(ink) <= ink
      ensures XVisible(x) ==> Filled(old(Clear()), old(ink), x, y)
      ensures XVisible(x) && old(TstPixel(x, y)) ==> ink == old(ink)
      ensures XVisible(x) && YVisible(y) ==> Point(x, y) in ink
      ensures !XVisible(x) && YVisible(y) ==> ink == old(ink) + {Point(BoundX(x), y)}
      ensures !YVisible(y) ==> ink == old(ink)
      ensures Reached(old(ink), ink, x, y, y + 1) && Reached(old(ink), ink, x, y, y - 1)
      ensures XVisible(x) ==> DrawnWhole(old(ink), ink) && GoesOn(old(ink), ink)
      decreases Clear(), 0
    {
      ghost var clear, before := Clear(), ink;
      var above, below, xabove, xbelow, xmin, xmax := FillRow(x, y);
      assert above || below ==> Clear() < clear by {
        if above || below { assert Point(x, y) in clear && Point(x, y) !in Clear(); }
      }
      ghost var row := ink;
      NothingDrawn(row);
      if above {
        FillNext(xabove, y + 1, Point(x, y), clear, before);
      }
      ghost var mid := ink;
      NothingDrawn(mid);
      if below {
        FillNext(xbelow, y - 1, Point(x, y), clear, before);
      }
      ReachedBy(before, ink, x, y, xmin, xmax, y + 1, above, xabove);
      ReachedBy(before, ink, x, y, xmin, xmax, y - 1, below, xbelow);
      if XVisible(x) {
        RowDrawnWhole(before, row, x, y, xmin, xmax);
        RowReached(before, row, ink, x, y, xmin, xmax);
        PartsGoOn(before, row, mid, ink);
      }
    }

    /** One of the two fills that setfill goes on with: it starts from a pixel that the seed reaches. */
    method FillNext(nx: int, ny: nat, ghost seed: Point, ghost clear: set<Point>, ghost before: set<Point>)
      requires XVisible(nx) && ny < UNSIGNED_SPAN && NextSeed(clear, seed.x, seed.y, Point(nx, ny))
      requires Clear() <= clear && FilledFrom(clear, before, ink, seed)
      modifies this
      ensures FilledFrom(clear, before, ink, seed) && (XVisible(ny) && YVisible(ny) ==> Point(nx, ny) in ink)
      ensures DrawnWhole(old(ink), ink) && GoesOn(old(ink), ink)
      decreases Clear(), 2
    {
      ghost var mid, region := ink, Clear();
      SetFill(nx, ny);
      FillsJoin(clear, region, before, mid, ink, seed, Point(nx, ny));
    }

    lemma NothingDrawn(pixels: set<Point>)
      ensures DrawnWhole(pixels, pixels) && GoesOn(pixels, pixels)
    {
    }

    /** What has been reached from the seed has been reached from the rest of its stretch. */
    lemma RowReached(before: set<Point>, row: set<Point>, after: set<Point>, x: int, y: int, xmin: int, xmax: int)
      requires Stretch(before, x, y, xmin, xmax)
      requires Reached(before, after, x, y, y + 1) && Reached(before, after, x, y, y - 1)
      requires forall p :: p in row && p !in before ==> p.y == y && xmin <= p.x < xmax
      ensures forall p :: p in row && p !in before ==>
        Reached(before, after, p.x, p.y, p.y + 1) && Reached(before, after, p.x, p.y, p.y - 1)
    {
      forall p, a, b | p in row && p !in before && Stretch(before, p.x, p.y, a, b)
        ensures a == xmin && b == xmax
      {
        StretchShared(before, x, p.x, y, xmin, xmax);
        StretchUnique(before, p.x, y, a, b, xmin, xmax);
      }
    }

    lemma ReachedBy(before: set<Point>, after: set<Point>, x: int, y: int, xmin: int, xmax: int, ny: int, found: bool, at: int)
      requires Stretch(before, x, y, xmin, xmax) && forall i :: xmin <= i < xmax ==> Point(i, y) in after
      requires if found then FirstClear(before, xmin, xmax, ny, at) && (XVisible(ny) ==> Point(at, ny) in after)
        else NoneClear(before, xmin, xmax, ny)
      ensures Reached(before, after, x, y, ny)
    {
      forall a, b | Stretch(before, x, y, a, b)
        ensures a == xmin && b == xmax
      {
        StretchUnique(before, x, y, a, b, xmin, xmax);
      }
      forall pos | FirstClear(before, xmin, xmax, ny, pos)
        ensures found && pos == at
      {
        assert FirstClear(before, xmin, xmax, ny, pos) && (found ==> !OffOrSet(before, at, ny));
      }
    }

    /** A clear pixel above or below the clear stretch of the seed can be reached from the seed. */
    lemma NeighbourConnected(clear: set<Point>, x: int, y: int, nx: int, ny: int, xmin: int, xmax: int)
      requires forall i :: xmin <= i < xmax ==> Point(i, y) in clear && XVisible(i)
      requires xmin - 1 <= x <= xmax && (x < xmin <==> x == xmax) && BoundX(xmin) <= nx < BoundX(xmax)
      requires Point(nx, ny) in clear && XVisible(nx) && 0 <= ny && (ny == y + 1 || ny == y - 1)
      ensures Point(x, y) in clear && NextSeed(clear, x, y, Point(nx, ny))
    {
      RowConnected(clear, y, x, nx);
      ConnectedStep(clear, Point(x, y), Point(nx, y), Point(nx, ny));
    }

    /** The stretch drawn around a clear seed is connected to it; its right end was already set. */
    lemma StretchIsConnected(clear: set<Point>, before: set<Point>, x: int, y: int, xmin: int, xmax: int)
      requires XVisible(x) && YVisible(y) && before <= ink
      requires forall i :: xmin <= i < xmax ==> Point(i, y) in clear && XVisible(i)
      requires xmin <= x < xmax && (XVisible(xmax) ==> Point(xmax, y) in before)
      requires forall p :: p in ink && p !in before ==> p.y == y && BoundX(xmin) <= p.x <= BoundX(xmax) && XVisible(p.x)
      ensures Filled(clear, before, x, y)
    {
      forall p | p in ink && p !in before
        ensures Connected(clear, Point(x, y), p)
      {
        assert xmin <= p.x < xmax;
        RowConnected(clear, y, x, p.x);
      }
    }
  }

  /** The visible pixels of a sequence. */
  ghost function OnScreen(c: Canvas, pixels: seq<Point>): set<Point> {
    set p | p in pixels && c.XVisible(p.x) && c.YVisible(p.y)
  }

  /** The first k pixels have been drawn on a canvas that started with this ink and this record. */
  ghost predicate DrawnUpTo(c: Canvas, ink: set<Point>, drawn: seq<Point>, pixels: seq<Point>, k: nat)
    requires k <= |pixels|
    reads c
  {
    c.drawn == drawn + pixels[..k] && c.ink == ink + OnScreen(c, pixels[..k])
  }

  /** setpixel inside the loops of setline. */
  method DrawNext(c: Canvas, x: int, y: int,
      ghost ink: set<Point>, ghost drawn: seq<Point>, ghost pixels: seq<Point>, ghost k: nat)
    requires k < |pixels| && Point(x, y) == pixels[k] && DrawnUpTo(c, ink, drawn, pixels, k)
    modifies c
    ensures DrawnUpTo(c, ink, drawn, pixels, k + 1)
  {
    PrefixGrows(drawn, pixels, k);
    assert pixels[..k + 1] == pixels[..k] + [pixels[k]];
    c.SetPixel(x, y);
  }

  /** The branch of setline that steps along x. */
  method FlatLine(c: Canvas, x1: int, y1: int, x2: int, y2: int)
    requires x1 != x2 && y1 != y2 && !Steep(Point(x1, y1), Point(x2, y2))
    modifies c
    ensures var pixels := Pixels(Point(x1, y1), Point(x2, y2));
      DrawnUpTo(c, old(c.ink), old(c.drawn), pixels, |pixels| - 1)
  {
    ghost var a, b, k := Point(x1, y1), Point(x2, y2), 0;
    ghost var pixels := Pixels(a, b);
    var dy, dx := Sign(y2 - y1), Sign(x2 - x1);
    var rise, run := y2 - y1, x2 - x1;
    var x, y := x1, y1;
    LineEnds(a, b);
    while x != x2
      invariant 0 <= k <= Length(a, b) && x == x1 + dx * k && Point(x, y) == pixels[k]
      invariant DrawnUpTo(c, old(c.ink), old(c.drawn), pixels, k)
      decreases Length(a, b) - k
    {
      DrawNext(c, x, y, old(c.ink), old(c.drawn), pixels, k);
      NextPixel(a, b, k);
      x := x + dx;
      y := TruncDiv((x - x1) * rise + TruncDiv(dy * run, 2), run) + y1;
      k := k + 1;
    }
  }

  /** The branch of setline that steps along y. */
  method SteepLine(c: Canvas, x1: int, y1: int, x2: int, y2: int)
    requires x1 != x2 && y1 != y2 && Steep(Point(x1, y1), Point(x2, y2))
    modifies c
    ensures var pixels := Pixels(Point(x1, y1), Point(x2, y2));
      DrawnUpTo(c, old(c.ink), old(c.drawn), pixels, |pixels| - 1)
  {
    ghost var a, b, k := Point(x1, y1), Point(x2, y2), 0;
    ghost var pixels := Pixels(a, b);
    var dy, dx := Sign(y2 - y1), Sign(x2 - x1);
    var rise, run := y2 - y1, x2 - x1;
    var x, y := x1, y1;
    LineEnds(a, b);
    while y != y2
      invariant 0 <= k <= Length(a, b) && y == y1 + dy * k && Point(x, y) == pixels[k]
      invariant DrawnUpTo(c, old(c.ink), old(c.drawn), pixels, k)
      decreases Length(a, b) - k
    {
      DrawNext(c, x, y, old(c.ink), old(c.drawn), pixels, k);
      NextPixel(a, b, k);
      y := y + dy;
      x := TruncDiv((y - y1) * run + TruncDiv(dx * rise, 2), rise) + x1;
      k := k + 1;
    }
  }

  /** setline for a line that is neither horizontal nor vertical: exactly the pixels of Line.Pixels are asked
      for, in that order, and those on the screen are set. */
  method SetLine(c: Canvas, x1: int, y1: int, x2: int, y2: int)
    requires x1 != x2 && y1 != y2
    modifies c
    ensures var pixels := Pixels(Point(x1, y1), Point(x2, y2));
      DrawnUpTo(c, old(c.ink), old(c.drawn), pixels, |pixels|)
  {
    if Abs(x2 - x1) > Abs(y2 - y1) {
      FlatLine(c, x1, y1, x2, y2);
    } else {
      SteepLine(c, x1, y1, x2, y2);
    }
    ghost var a, b := Point(x1, y1), Point(x2, y2);
    LineEnds(a, b);
    DrawNext(c, x2, y2, old(c.ink), old(c.drawn), Pixels(a, b), Length(a, b));
  }

  /** A fill from a pixel reached from the seed, in a smaller clear region, continues the fill of the seed. */
  lemma FillsJoin(clear: set<Point>, region: set<Point>, before: set<Point>, mid: set<Point>, after: set<Point>,
      seed: Point, next: Point)
    requires region <= clear && Connected(clear, seed, next)
    requires forall p :: p in mid && p !in before ==> Connected(clear, seed, p)
    requires forall p :: p in after && p !in mid ==> Connected(region, next, p)
    ensures forall p :: p in after && p !in before ==> Connected(clear, seed, p)
  {
    forall p | p in after && p !in before
      ensures Connected(clear, seed, p)
    {
      if p !in mid {
        ConnectedInLarger(region, clear, next, p);
        ConnectedJoin(clear, seed, next, p);
      }
    }
  }
}
