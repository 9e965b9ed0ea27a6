/** The arithmetic of the line rasteriser: one step on the major axis per pixel, and the minor coordinate by a
    division that rounds towards zero after half the divisor has been added. */
module Line {
  import opened Bytes

  datatype Point = Point(x: int, y: int)

  function Abs(v: int): nat { if v < 0 then -v else v }

  function Sign(v: int): int { if v > 0 then 1 else -1 }

  /** The minor offset of pixel k of a line of major length major and minor length minor. */
  function MinorOffset(k: nat, major: nat, minor: nat): nat
    requires major > 0
  {
    (k * minor + major / 2) / major
  }

  function Steep(a: Point, b: Point): bool { Abs(b.x - a.x) <= Abs(b.y - a.y) }

  function Length(a: Point, b: Point): nat {
    if Steep(a, b) then Abs(b.y - a.y) else Abs(b.x - a.x)
  }

  /** Pixel k of the line from a to b. */
  function Pixel(a: Point, b: Point, k: nat): Point
    requires a.x != b.x && a.y != b.y
  {
    var dx, dy, adx, ady := Sign(b.x - a.x), Sign(b.y - a.y), Abs(b.x - a.x), Abs(b.y - a.y);
    if Steep(a, b) then Point(a.x + dx * MinorOffset(k, ady, adx), a.y + dy * k)
    else Point(a.x + dx * k, a.y + dy * MinorOffset(k, adx, ady))
  }

  /** The pixels of a sloped line, in the order they are drawn. */
  function Pixels(a: Point, b: Point): (s: seq<Point>)
    requires a.x != b.x && a.y != b.y
    ensures |s| == Length(a, b) + 1
  {
    seq(Length(a, b) + 1, k requires 0 <= k <= Length(a, b) => Pixel(a, b, k))
  }

  // ---------------------------------------------------------------- the division

  lemma QuotientBracket(n: int, d: nat)
    requires d > 0
    ensures d * (n / d) <= n < d * (n / d) + d
  {
  }

  lemma NearestMultiple(k: nat, major: nat, minor: nat)
    requires major > 0
    ensures var q := MinorOffset(k, major, minor);
      -(major as int) <= 2 * (q * major - k * minor) <= major
  {
    var n := k * minor + major / 2;
    QuotientBracket(n, major);
    assert major * (n / major) == MinorOffset(k, major, minor) * major;
  }

  /** The minor offset is the one integer that is nearest to the ideal one, the larger of two that are equally
      near. */
  lemma MinorOffsetIff(k: nat, major: nat, minor: nat, q: nat)
    requires major > 0
    ensures q == MinorOffset(k, major, minor) <==> -(major as int) < 2 * (q * major - k * minor) <= major
  {
    var n, half, r := k * minor + major / 2, major / 2, MinorOffset(k, major, minor);
    QuotientBracket(n, major);
    assert major * r == r * major;
    if q * major <= n < q * major + major {
      Quotient(n, major, q);
    }
  }

  lemma Quotient(n: nat, d: nat, q: nat)
    requires d > 0 && d * q <= n < d * q + d
    ensures n / d == q
  {
    QuotientBracket(n, d);
    assert d * (q + 1) == d * q + d && d * (n / d + 1) == d * (n / d) + d;
    Below(d, n / d, q + 1);
    Below(d, q, n / d + 1);
  }

  lemma OffsetEnds(major: nat, minor: nat)
    requires 0 < minor <= major
    ensures MinorOffset(0, major, minor) == 0 && MinorOffset(major, major, minor) == minor
  {
    Quotient(major / 2, major, 0);
    Quotient(major * minor + major / 2, major, minor);
  }

  /** The minor offset never goes back and never skips. */
  lemma OffsetSteps(k: nat, major: nat, minor: nat)
    requires 0 < minor <= major
    ensures MinorOffset(k, major, minor) <= MinorOffset(k + 1, major, minor) <= MinorOffset(k, major, minor) + 1
  {
    var n, q := k * minor + major / 2, MinorOffset(k, major, minor);
    QuotientBracket(n, major);
    assert (k + 1) * minor == k * minor + minor;
    if n + minor < major * q + major {
      Quotient(n + minor, major, q);
    } else {
      assert major * (q + 1) == major * q + major;
      Quotient(n + minor, major, q + 1);
    }
  }

  /** In every quadrant the expression of the drawing loop, with truncation, is the signed minor offset. */
  lemma LoopExpression(k: nat, major: nat, minor: nat, s: int, t: int)
    requires major > 0 && (s == 1 || s == -1) && (t == 1 || t == -1)
    ensures TruncDiv((s * k) * (t * minor) + TruncDiv(t * (s * major), 2), s * major) == t * MinorOffset(k, major, minor)
  {
    var n := k * minor + major / 2;
    var st := s * t;
    assert st == 1 || st == -1;
    LoopTerms(k, major, minor, s, t);
    assert st * (k * minor) + st * (major / 2) == st * n;
    SignedQuotient(n, major, st, s);
    assert st * s == t;
  }

  /** The two terms of that expression, by their signs and sizes. */
  lemma LoopTerms(k: nat, major: nat, minor: nat, s: int, t: int)
    requires (s == 1 || s == -1) && (t == 1 || t == -1)
    ensures (s * k) * (t * minor) == (s * t) * (k * minor)
    ensures t * (s * major) == (s * t) * major
    ensures TruncDiv(t * (s * major), 2) == (s * t) * (major / 2)
  {
    ProductOfSigned(s, k, t, minor);
    var st := s * t;
    assert st == 1 || st == -1;
    assert t * (s * major) == st * major;
  }

  lemma ProductOfSigned(s: int, a: int, t: int, b: int)
    ensures (s * a) * (t * b) == (s * t) * (a * b)
  {
  }

  lemma SignedQuotient(n: nat, d: nat, u: int, s: int)
    requires d > 0 && (s == 1 || s == -1) && (u == 1 || u == -1)
    ensures TruncDiv(u * n, s * d) == (u * s) * (n / d)
  {
    if n == 0 {
      Quotient(0, d, 0);
    }
  }

  // ---------------------------------------------------------------- what a line is

  lemma LineEnds(a: Point, b: Point)
    requires a.x != b.x && a.y != b.y
    ensures Pixels(a, b)[0] == a && Pixels(a, b)[Length(a, b)] == b
  {
    var adx, ady := Abs(b.x - a.x), Abs(b.y - a.y);
    if Steep(a, b) {
      OffsetEnds(ady, adx);
    } else {
      OffsetEnds(adx, ady);
    }
  }

  /** What the loop computes for the next pixel. */
  lemma NextPixel(a: Point, b: Point, k: nat)
    requires a.x != b.x && a.y != b.y && k < Length(a, b)
    ensures var dx, dy, rise, run := Sign(b.x - a.x), Sign(b.y - a.y), b.y - a.y, b.x - a.x;
      Pixels(a, b)[k + 1] ==
        if Steep(a, b) then Point(TruncDiv((dy * (k + 1)) * run + TruncDiv(dx * rise, 2), rise) + a.x, a.y + dy * (k + 1))
        else Point(a.x + dx * (k + 1), TruncDiv((dx * (k + 1)) * rise + TruncDiv(dy * run, 2), run) + a.y)
    ensures Sign(b.x - a.x) * (k + 1) == Sign(b.x - a.x) * k + Sign(b.x - a.x)
    ensures Sign(b.y - a.y) * (k + 1) == Sign(b.y - a.y) * k + Sign(b.y - a.y)
  {
    var dx, dy, adx, ady := Sign(b.x - a.x), Sign(b.y - a.y), Abs(b.x - a.x), Abs(b.y - a.y);
    assert b.x - a.x == dx * adx && b.y - a.y == dy * ady;
    if Steep(a, b) {
      LoopExpression(k + 1, ady, adx, dy, dx);
    } else {
      LoopExpression(k + 1, adx, ady, dx, dy);
    }
  }

  /** From one pixel to the next the major coordinate moves by one and the minor one by at most one, both
      towards the end point. */
  lemma LineSteps(a: Point, b: Point, k: nat)
    requires a.x != b.x && a.y != b.y && k < Length(a, b)
    ensures var p, q, dx, dy := Pixels(a, b)[k], Pixels(a, b)[k + 1], Sign(b.x - a.x), Sign(b.y - a.y);
      if Steep(a, b) then q.y == p.y + dy && (q.x == p.x || q.x == p.x + dx)
      else q.x == p.x + dx && (q.y == p.y || q.y == p.y + dy)
  {
    var adx, ady := Abs(b.x - a.x), Abs(b.y - a.y);
    if Steep(a, b) {
      OffsetSteps(k, ady, adx);
    } else {
      OffsetSteps(k, adx, ady);
    }
  }

  /** The error of a pixel, from its unsigned offsets. */
  lemma SignedError(s: int, t: int, q: nat, major: nat, k: nat, minor: nat)
    requires (s == 1 || s == -1) && (t == 1 || t == -1)
    requires -(major as int) <= 2 * (q * major - k * minor) <= major
    ensures 2 * Abs((s * q) * (t * major) - (t * k) * (s * minor)) <= major
  {
    ProductOfSigned(s, q, t, major);
    ProductOfSigned(t, k, s, minor);
    var e, st := q * major - k * minor, s * t;
    assert st == 1 || st == -1;
    assert (s * q) * (t * major) - (t * k) * (s * minor) == st * (q * major) - st * (k * minor);
    assert st * (q * major) - st * (k * minor) == st * e by { DistributeSign(st, q * major, k * minor); }
  }

  lemma DistributeSign(s: int, a: int, b: int)
    ensures s * a - s * b == s * (a - b)
  {
  }

  /** Every pixel lies within half a pixel of the ideal line along the minor axis. */
  lemma LineAccuracy(a: Point, b: Point, k: nat)
    requires a.x != b.x && a.y != b.y && k <= Length(a, b)
    ensures 2 * Abs(Deviation(a, b, Pixels(a, b)[k])) <= Length(a, b)
  {
    var dx, dy, adx, ady := Sign(b.x - a.x), Sign(b.y - a.y), Abs(b.x - a.x), Abs(b.y - a.y);
    assert b.x - a.x == dx * adx && b.y - a.y == dy * ady;
    if Steep(a, b) {
      var q := MinorOffset(k, ady, adx);
      NearestMultiple(k, ady, adx);
      SignedError(dx, dy, q, ady, k, adx);
      assert Pixels(a, b)[k] == Point(a.x + dx * q, a.y + dy * k);
    } else {
      var q := MinorOffset(k, adx, ady);
      NearestMultiple(k, adx, ady);
      SignedError(dy, dx, q, adx, k, ady);
      assert Pixels(a, b)[k] == Point(a.x + dx * k, a.y + dy * q);
    }
  }

  /** How far a point is off the line through a and b, times the extent of the line. */
  function Deviation(a: Point, b: Point, p: Point): int {
    (p.y - a.y) * (b.x - a.x) - (p.x - a.x) * (b.y - a.y)
  }

  // ---------------------------------------------------------------- the machine's integers

  /** Every value that the loop computes for pixel k, from the product to the coordinate, is a 32-bit one. The
      signs are those of the major and minor axis, and from is where the minor coordinate starts. */
  predicate StepFits(k: nat, major: nat, minor: nat, s: int, t: int, from: int)
    requires major > 0 && s != 0
  {
    var product, shift := (s * k) * (t * minor), t * (s * major);
    && IsInt(product) && IsInt(shift) && IsInt(product + TruncDiv(shift, 2))
    && IsInt(TruncDiv(product + TruncDiv(shift, 2), s * major) + from)
  }

  predicate LoopFits(a: Point, b: Point, k: nat)
    requires a.x != b.x && a.y != b.y
  {
    var dx, dy, adx, ady := Sign(b.x - a.x), Sign(b.y - a.y), Abs(b.x - a.x), Abs(b.y - a.y);
    if Steep(a, b) then StepFits(k, ady, adx, dy, dx, a.x) else StepFits(k, adx, ady, dx, dy, a.y)
  }

  /** The largest sum of a line, with its sign. */
  function LargestSum(a: Point, b: Point): int {
    var adx, ady := Abs(b.x - a.x), Abs(b.y - a.y);
    Sign(b.x - a.x) * Sign(b.y - a.y) * (adx * ady + Length(a, b) / 2)
  }

  lemma OffsetWithin(k: nat, major: nat, minor: nat)
    requires major > 0 && k <= major
    ensures MinorOffset(k, major, minor) <= minor
  {
    QuotientBracket(k * minor + major / 2, major);
    assert k * minor <= major * minor && major * (minor + 1) == major * minor + major;
    Below(major, MinorOffset(k, major, minor), minor + 1);
  }

  lemma SmallerFits(u: int, v: nat, w: nat)
    requires (u == 1 || u == -1) && v <= w && IsInt(u * w)
    ensures IsInt(u * v)
  {
  }

  lemma SumFits(u: int, p: nat, q: nat)
    requires u == 1 || u == -1
    ensures u * p + u * q == u * (p + q)
  {
  }

  lemma StepFitsIfLargest(k: nat, major: nat, minor: nat, s: int, t: int, from: int)
    requires 0 < minor <= major && (s == 1 || s == -1) && (t == 1 || t == -1) && k <= major
    requires IsInt(s * t * (major * minor + major / 2)) && IsInt(from) && IsInt(from + t * minor)
    ensures StepFits(k, major, minor, s, t, from)
  {
    var st, p, q, largest := s * t, k * minor, MinorOffset(k, major, minor), major * minor + major / 2;
    SignProduct(s, t);
    TermsWithin(k, major, minor);
    LoopTerms(k, major, minor, s, t);
    SumFits(st, p, major / 2);
    SmallerFits(st, p, largest);
    SmallerFits(st, major, largest);
    SmallerFits(st, p + major / 2, largest);
    LoopExpression(k, major, minor, s, t);
    OffsetWithin(k, major, minor);
    StaysBetween(t, q, minor, from);
    var product, shift := (s * k) * (t * minor), t * (s * major);
    assert product == st * p && shift == st * major && product + TruncDiv(shift, 2) == st * (p + major / 2);
    assert TruncDiv(product + TruncDiv(shift, 2), s * major) == t * q;
  }

  lemma SignProduct(s: int, t: int)
    requires (s == 1 || s == -1) && (t == 1 || t == -1)
    ensures s * t == 1 || s * t == -1
  {
  }

  lemma TermsWithin(k: nat, major: nat, minor: nat)
    requires 0 < minor && k <= major
    ensures 0 <= k * minor <= major * minor && major <= major * minor
  {
  }

  lemma StaysBetween(t: int, q: nat, minor: nat, from: int)
    requires (t == 1 || t == -1) && q <= minor && IsInt(from) && IsInt(from + t * minor)
    ensures IsInt(t * q + from)
  {
  }

  lemma LargestIfStepFits(major: nat, minor: nat, s: int, t: int, from: int)
    requires 0 < major && (s == 1 || s == -1) && (t == 1 || t == -1)
    requires StepFits(major, major, minor, s, t, from)
    ensures IsInt(s * t * (major * minor + major / 2))
  {
    assert s * t == 1 || s * t == -1;
    LoopTerms(major, major, minor, s, t);
    SumFits(s * t, major * minor, major / 2);
  }

  /** The loop of a line computes with 32-bit integers throughout exactly when its largest sum is one. */
  lemma LoopFitsIff(a: Point, b: Point)
    requires a.x != b.x && a.y != b.y && IsInt(a.x) && IsInt(a.y) && IsInt(b.x) && IsInt(b.y)
    ensures (forall k: nat :: 1 <= k <= Length(a, b) ==> LoopFits(a, b, k)) <==> IsInt(LargestSum(a, b))
  {
    var dx, dy, adx, ady := Sign(b.x - a.x), Sign(b.y - a.y), Abs(b.x - a.x), Abs(b.y - a.y);
    assert b.x == a.x + dx * adx && b.y == a.y + dy * ady;
    Swapped(dx, dy, adx, ady);
    if IsInt(LargestSum(a, b)) {
      forall k: nat | 1 <= k <= Length(a, b)
        ensures LoopFits(a, b, k)
      {
        if Steep(a, b) {
          StepFitsIfLargest(k, ady, adx, dy, dx, a.x);
        } else {
          StepFitsIfLargest(k, adx, ady, dx, dy, a.y);
        }
      }
    } else if LoopFits(a, b, Length(a, b)) {
      if Steep(a, b) {
        LargestIfStepFits(ady, adx, dy, dx, a.x);
      } else {
        LargestIfStepFits(adx, ady, dx, dy, a.y);
      }
    }
  }

  lemma Swapped(s: int, t: int, p: int, q: int)
    ensures s * t == t * s && p * q == q * p
  {
  }

  /** Lines of up to 46340 steps always fit. */
  lemma LinesUpTo46340Fit(a: Point, b: Point)
    requires a.x != b.x && a.y != b.y && Length(a, b) <= 46340
    ensures IsInt(LargestSum(a, b))
  {
    var adx, ady, dx, dy := Abs(b.x - a.x), Abs(b.y - a.y), Sign(b.x - a.x), Sign(b.y - a.y);
    SignProduct(dx, dy);
    ProductUpTo(adx, ady, 46340);
    SmallerFits(dx * dy, adx * ady + Length(a, b) / 2, INT_MAX);
  }

  lemma ProductUpTo(p: nat, q: nat, m: nat)
    requires p <= m && q <= m
    ensures 0 <= p * q <= m * m
  {
    assert p * q <= m * q <= m * m;
  }

  /** The diagonal of 46341 steps does not. */
  lemma DiagonalOverflows()
    ensures !IsInt(LargestSum(Point(0, 0), Point(46341, 46341)))
  {
  }
}
