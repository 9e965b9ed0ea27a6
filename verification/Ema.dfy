/** Fixed-point exponential moving average.

    The filter keeps an integer average and blends each input into it with weight alpha / 2^k, where k
    is the width of the small integer type. One unit is added before the shift, so the average does not
    settle on a constant input but just above it; `Settled` says exactly where.
 */
module Ema {
  import opened Bytes

  /** The integer types a filter is instantiated with: 2^k, and the ranges of the two wider types. */
  datatype Format = Format(smallMax: nat, mediumMin: int, mediumMax: int, largeMin: int, largeMax: int)

  const EMA_I32 := Format(0x1_0000, -0x8000_0000, 0x7FFF_FFFF, -0x8000_0000_0000_0000, 0x7FFF_FFFF_FFFF_FFFF)
  const EMA_I16 := Format(0x100, -0x8000, 0x7FFF, -0x8000_0000, 0x7FFF_FFFF)
  const EMA_U32 := Format(0x1_0000, 0, 0xFFFF_FFFF, 0, 0xFFFF_FFFF_FFFF_FFFF)
  const EMA_U16 := Format(0x100, 0, 0xFFFF, 0, 0xFFFF_FFFF)

  predicate Provided(f: Format) {
    f == EMA_I32 || f == EMA_I16 || f == EMA_U32 || f == EMA_U16
  }

  /** The types of a filter: the small one has half the bits of the medium one, and the large one twice as many. */
  lemma FormatWidths(f: Format)
    requires Provided(f)
    ensures f.smallMax * f.smallMax == f.mediumMax - f.mediumMin + 1
    ensures (f.mediumMax - f.mediumMin + 1) * (f.mediumMax - f.mediumMin + 1) == f.largeMax - f.largeMin + 1
    ensures f.smallMax == 0x100 || f.smallMax == 0x1_0000
    ensures f.mediumMin == 0 || f.mediumMin == -f.mediumMax - 1
    ensures f.largeMin == 0 || f.largeMin == -f.largeMax - 1
  {
  }

  predicate InMedium(f: Format, v: int) {
    f.mediumMin <= v <= f.mediumMax
  }

  /** The sum held in the large type before the rounding unit is added. */
  function Blend(f: Format, alpha: nat, average: int, input: int): int {
    input * alpha + average * (f.smallMax - alpha)
  }

  /** The value of the shift, before it is narrowed; an arithmetic right shift rounds down. */
  function Step(f: Format, alpha: nat, average: int, input: int): int
    requires f.smallMax > 0
  {
    (Blend(f, alpha, average, input) + f.smallMax) / f.smallMax
  }

  /** Conversion to the medium type, which wraps around. */
  function Narrow(f: Format, v: int): (r: int)
    requires f.mediumMin <= f.mediumMax
    ensures InMedium(f, r)
    ensures InMedium(f, v) ==> r == v
  {
    var span := f.mediumMax - f.mediumMin + 1;
    var r := f.mediumMin + (v - f.mediumMin) % span;
    assert InMedium(f, v) ==> (v - f.mediumMin) % span == v - f.mediumMin by {
      if InMedium(f, v) { SmallModulus(v - f.mediumMin, span); }
    }
    r
  }

  lemma SmallModulus(v: nat, span: nat)
    requires v < span
    ensures v % span == v
  {
  }

  /** The average that is stored after one input. */
  function Update(f: Format, alpha: nat, average: int, input: int): (r: int)
    requires Provided(f)
    ensures InMedium(f, r)
  {
    Narrow(f, Step(f, alpha, average, input))
  }

  /** The average after a sequence of inputs. */
  function After(f: Format, alpha: nat, start: int, inputs: seq<int>): int
    requires Provided(f)
  {
    if inputs == [] then start
    else Update(f, alpha, After(f, alpha, start, inputs[..|inputs| - 1]), inputs[|inputs| - 1])
  }

  // ---------------------------------------------------------------- the filter object

  class Filter {
    const format: Format
    const alpha: nat
    var average: int
    ghost const start: int
    ghost var inputs: seq<int>

    ghost predicate Valid()
      reads this
    {
      Provided(format) && alpha < format.smallMax && InMedium(format, average)
      && average == After(format, alpha, start, inputs)
    }

    constructor (format: Format, start: int, alpha: nat)
      requires Provided(format) && alpha < format.smallMax && InMedium(format, start)
      ensures Valid() && this.format == format && this.alpha == alpha && average == start
      ensures this.start == start && inputs == []
    {
      this.format := format;
      this.alpha := alpha;
      this.average := start;
      this.start := start;
      this.inputs := [];
    }

    method Calc(input: int) returns (result: int)
      requires Valid() && InMedium(format, input)
      modifies this
      ensures Valid() && inputs == old(inputs) + [input]
      ensures result == average == After(format, alpha, start, inputs)
    {
      LargeTypeSuffices(format, alpha, average, input);
      var tmp0 := input * alpha + average * (format.smallMax - alpha);
      average := Narrow(format, (tmp0 + format.smallMax) / format.smallMax);
      assert average == Update(format, alpha, old(average), input);
      inputs := inputs + [input];
      assert inputs[..|inputs| - 1] == old(inputs);
      result := average;
    }
  }

  // ---------------------------------------------------------------- arithmetic

  /** No intermediate result leaves the large type, for any of the four instantiations. */
  lemma LargeTypeSuffices(f: Format, alpha: nat, average: int, input: int)
    requires Provided(f) && alpha < f.smallMax && InMedium(f, average) && InMedium(f, input)
    ensures f.largeMin <= input * alpha <= f.largeMax
    ensures f.largeMin <= average * (f.smallMax - alpha) <= f.largeMax
    ensures f.largeMin <= Blend(f, alpha, average, input) <= Blend(f, alpha, average, input) + f.smallMax <= f.largeMax
  {
    var beta := f.smallMax - alpha;
    Scale(f.mediumMin, input, f.mediumMax, alpha);
    Scale(f.mediumMin, average, f.mediumMax, beta);
    assert f.mediumMin * alpha + f.mediumMin * beta == f.mediumMin * f.smallMax;
    assert f.mediumMax * alpha + f.mediumMax * beta == f.mediumMax * f.smallMax;
    Scale(0, alpha, f.smallMax, if f.mediumMin < 0 then -f.mediumMin else 0);
    Scale(0, beta, f.smallMax, if f.mediumMin < 0 then -f.mediumMin else 0);
    Scale(0, alpha, f.smallMax, f.mediumMax);
    Scale(0, beta, f.smallMax, f.mediumMax);
  }

  lemma Scale(a: int, b: int, c: int, k: nat)
    requires a <= b <= c
    ensures a * k <= b * k <= c * k
  {
  }

  /** What the division means: the new average lies strictly above blend / 2^k and at most one above it. */
  lemma StepBracket(f: Format, alpha: nat, average: int, input: int)
    requires f.smallMax > 0
    ensures var s := Step(f, alpha, average, input);
      f.smallMax * (s - 1) <= Blend(f, alpha, average, input) < f.smallMax * s
  {
    var m, t := f.smallMax, Blend(f, alpha, average, input) + f.smallMax;
    assert t == m * (t / m) + t % m;
  }

  // ---------------------------------------------------------------- boundedness

  /** A weighted mean of values in a band lies in the band. */
  lemma BlendStays(f: Format, alpha: nat, average: int, input: int, lo: int, hi: int)
    requires 0 < alpha < f.smallMax
    requires lo <= input <= hi && lo <= average <= hi + 1
    ensures f.smallMax * lo <= Blend(f, alpha, average, input) < f.smallMax * (hi + 1)
  {
    var beta := f.smallMax - alpha;
    Scale(lo, input, hi, alpha);
    Scale(lo, average, hi + 1, beta);
    assert lo * alpha + lo * beta == f.smallMax * lo;
    assert hi * alpha + (hi + 1) * beta == f.smallMax * (hi + 1) - alpha;
  }

  /** One step keeps an average in [lo, hi + 1] there when the input lies in [lo, hi]. */
  lemma StepStays(f: Format, alpha: nat, average: int, input: int, lo: int, hi: int)
    requires 0 < alpha < f.smallMax
    requires lo <= input <= hi && lo <= average <= hi + 1
    ensures lo <= Step(f, alpha, average, input) <= hi + 1
  {
    var m, s := f.smallMax, Step(f, alpha, average, input);
    StepBracket(f, alpha, average, input);
    BlendStays(f, alpha, average, input, lo, hi);
    Below(m, lo, s);
    Below(m, s - 1, hi + 1);
  }

  /** With weight zero the inputs are ignored and the average climbs by one on every step. */
  lemma ZeroWeightDrifts(f: Format, average: int, input: int)
    requires f.smallMax > 0
    ensures Step(f, 0, average, input) == average + 1
  {
    var m := f.smallMax;
    StepBracket(f, 0, average, input);
    Below(m, average, Step(f, 0, average, input));
    assert m * (average + 2) == m * average + 2 * m;
    assert m * (Step(f, 0, average, input) - 1) < m * (average + 1);
    Below(m, Step(f, 0, average, input) - 1, average + 1);
  }

  ghost predicate AllWithin(inputs: seq<int>, lo: int, hi: int) {
    forall i :: 0 <= i < |inputs| ==> lo <= inputs[i] <= hi
  }

  /** Over a whole run the average never leaves [lo, hi + 1], and the narrowing never wraps. */
  lemma {:induction false} RunStays(f: Format, alpha: nat, start: int, inputs: seq<int>, lo: int, hi: int)
    requires Provided(f) && 0 < alpha < f.smallMax
    requires f.mediumMin <= lo <= start <= hi + 1 <= f.mediumMax
    requires AllWithin(inputs, lo, hi)
    ensures lo <= After(f, alpha, start, inputs) <= hi + 1
    ensures inputs != [] ==>
      After(f, alpha, start, inputs)
        == Step(f, alpha, After(f, alpha, start, inputs[..|inputs| - 1]), inputs[|inputs| - 1])
  {
    if inputs != [] {
      var last := |inputs| - 1;
      RunStays(f, alpha, start, inputs[..last], lo, hi);
      StepStays(f, alpha, After(f, alpha, start, inputs[..last]), inputs[last], lo, hi);
    }
  }

  lemma WrapsAtTop(f: Format)
    requires Provided(f)
    ensures Narrow(f, f.mediumMax + 1) == f.mediumMin
  {
  }

  /** What is stored when a step overshoots its type by no more than one. */
  lemma StoredAt(f: Format, alpha: nat, average: int, input: int, s: int)
    requires Provided(f) && s == Step(f, alpha, average, input) && f.mediumMin <= s <= f.mediumMax + 1
    ensures Update(f, alpha, average, input) == if s <= f.mediumMax then s else f.mediumMin
  {
    if s > f.mediumMax {
      WrapsAtTop(f);
    }
  }

  /** An average at full scale that is given a full-scale input wraps around to the other end of its type,
      whatever its weight. */
  lemma FullScaleWraps(f: Format, alpha: nat)
    requires Provided(f) && alpha < f.smallMax
    ensures Step(f, alpha, f.mediumMax, f.mediumMax) == f.mediumMax + 1
    ensures Update(f, alpha, f.mediumMax, f.mediumMax) == f.mediumMin
  {
    var m, top, s := f.smallMax, f.mediumMax, Step(f, alpha, f.mediumMax, f.mediumMax);
    StepBracket(f, alpha, top, top);
    BlendDeviation(f, alpha, top, top);
    Below(m, top, s);
    assert m * (top + 1) == m * top + m;
    Below(m, s - 1, top + 1);
    StoredAt(f, alpha, top, top, s);
  }

  /** Every run of inputs in [lo, hi] that starts in [lo, hi + 1] stays there. */
  ghost predicate KeepsInside(f: Format, alpha: nat, lo: int, hi: int)
    requires Provided(f)
  {
    forall start, inputs :: InMedium(f, start) && lo <= start <= hi + 1 && AllWithin(inputs, lo, hi) ==>
      lo <= After(f, alpha, start, inputs) <= hi + 1
  }

  /** A band that no value of the type lies outside of. */
  predicate IsWholeRange(f: Format, lo: int, hi: int) {
    lo == f.mediumMin && f.mediumMax <= hi + 1
  }

  /** The filter stays inside the band of its inputs exactly when it has a weight and there is room for one unit
      above the band, or the band is the whole range of the type. */
  lemma BandIsKeptIff(f: Format, alpha: nat, lo: int, hi: int)
    requires Provided(f) && alpha < f.smallMax && f.mediumMin <= lo <= hi <= f.mediumMax
    ensures KeepsInside(f, alpha, lo, hi) <==> (alpha > 0 && hi < f.mediumMax) || IsWholeRange(f, lo, hi)
  {
    if IsWholeRange(f, lo, hi) {
      assert forall start, inputs :: InMedium(f, start) ==> InMedium(f, After(f, alpha, start, inputs));
    } else if alpha > 0 && hi < f.mediumMax {
      forall start, inputs | InMedium(f, start) && lo <= start <= hi + 1 && AllWithin(inputs, lo, hi)
        ensures lo <= After(f, alpha, start, inputs) <= hi + 1
      {
        RunStays(f, alpha, start, inputs, lo, hi);
      }
    } else {
      BandIsLeft(f, alpha, lo, hi);
    }
  }

  /** Otherwise one input at the top of the band takes an average at the top out of it. */
  lemma BandIsLeft(f: Format, alpha: nat, lo: int, hi: int)
    requires Provided(f) && alpha < f.smallMax && f.mediumMin <= lo <= hi <= f.mediumMax
    requires (alpha == 0 || hi == f.mediumMax) && !IsWholeRange(f, lo, hi)
    ensures !KeepsInside(f, alpha, lo, hi)
  {
    var top := if hi < f.mediumMax then hi + 1 else hi;
    var next := After(f, alpha, top, [hi]);
    AfterOne(f, alpha, top, hi);
    TopEscapes(f, alpha, lo, hi, top);
    assert InMedium(f, top) && lo <= top <= hi + 1 && AllWithin([hi], lo, hi) && !(lo <= next <= hi + 1);
  }

  lemma AfterOne(f: Format, alpha: nat, start: int, input: int)
    requires Provided(f)
    ensures After(f, alpha, start, [input]) == Update(f, alpha, start, input)
  {
    assert [input][..0] == [];
    assert After(f, alpha, start, [input][..0]) == start;
  }

  lemma TopEscapes(f: Format, alpha: nat, lo: int, hi: int, top: int)
    requires Provided(f) && alpha < f.smallMax && f.mediumMin <= lo <= hi <= f.mediumMax
    requires (alpha == 0 || hi == f.mediumMax) && !IsWholeRange(f, lo, hi)
    requires top == if hi < f.mediumMax then hi + 1 else hi
    ensures !(lo <= Update(f, alpha, top, hi) <= hi + 1)
  {
    if hi == f.mediumMax {
      FullScaleWraps(f, alpha);
    } else {
      ZeroWeightDrifts(f, top, hi);
      StoredAt(f, alpha, top, hi, top + 1);
    }
  }

  // ---------------------------------------------------------------- constant input

  function Clamp(v: int, lo: int, hi: int): int {
    if v < lo then lo else if v > hi then hi else v
  }

  /** Where the average comes to rest when the input is held at c. */
  function Settled(f: Format, alpha: nat, start: int, c: int): (s: int)
    requires alpha > 0
  {
    c + Clamp(start - c, 1, f.smallMax / alpha)
  }

  function Distance(a: int, b: int): nat { if a < b then b - a else a - b }

  /** The averages that a constant input c leaves alone are those at a deviation d with d >= 1 and
      d * alpha <= 2^k, and no others. */
  lemma FixedPoints(f: Format, alpha: nat, average: int, c: int)
    requires 0 < alpha < f.smallMax
    ensures Step(f, alpha, average, c) == average
      <==> 1 <= average - c && (average - c) * alpha <= f.smallMax
  {
    var m, s, pull := f.smallMax, Step(f, alpha, average, c), (average - c) * alpha;
    StepBracket(f, alpha, average, c);
    BlendDeviation(f, alpha, average, c);
    BracketMeets(m, average, s, pull);
    PositiveProduct(average - c, alpha);
  }

  /** s is the quotient bracketed by m * average - pull; it equals average when 0 < pull <= m. */
  lemma BracketMeets(m: nat, average: int, s: int, pull: int)
    requires m > 0 && m * (s - 1) <= m * average - pull < m * s
    ensures s == average <==> 0 < pull <= m
  {
    assert m * (s - 1) == m * s - m;
    if 0 < pull <= m {
      assert m * (average - 1) == m * average - m;
      Below(m, average - 1, s);
      assert m * (average + 1) == m * average + m;
      Below(m, s - 1, average);
    }
  }

  lemma PositiveProduct(d: int, alpha: nat)
    requires alpha > 0
    ensures d * alpha > 0 <==> d >= 1
  {
    if d >= 1 { Scale(1, d, d, alpha); } else { Scale(d, 0, 0, alpha); }
  }

  lemma BlendDeviation(f: Format, alpha: nat, average: int, c: int)
    ensures Blend(f, alpha, average, c) == f.smallMax * average - (average - c) * alpha
  {
    assert c * alpha + average * (f.smallMax - alpha) == average * f.smallMax - average * alpha + c * alpha;
  }

  lemma QuotientBounds(m: nat, alpha: nat)
    requires 0 < alpha < m
    ensures 1 <= m / alpha && (m / alpha) * alpha <= m < (m / alpha + 1) * alpha
  {
    assert m == alpha * (m / alpha) + m % alpha;
  }

  /** Away from rest, one step moves towards the resting value and does not pass it. */
  lemma StepApproaches(f: Format, alpha: nat, average: int, c: int)
    requires 0 < alpha < f.smallMax
    ensures var s, target := Step(f, alpha, average, c), Settled(f, alpha, average, c);
      && (average < target ==> average < s <= target)
      && (average > target ==> target <= s < average)
      && (average == target ==> s == average)
      && Settled(f, alpha, s, c) == target
  {
    var m, d, s := f.smallMax, average - c, Step(f, alpha, average, c);
    QuotientBounds(m, alpha);
    FixedPoints(f, alpha, average, c);
    if d < 1 {
      Climbs(f, alpha, average, c);
    } else if d <= m / alpha {
      Scale(0, d, m / alpha, alpha);
    } else {
      Falls(f, alpha, average, c);
    }
  }

  lemma Climbs(f: Format, alpha: nat, average: int, c: int)
    requires 0 < alpha < f.smallMax && average <= c
    ensures average < Step(f, alpha, average, c) <= c + 1
  {
    var m, d, s := f.smallMax, average - c, Step(f, alpha, average, c);
    StepBracket(f, alpha, average, c);
    BlendDeviation(f, alpha, average, c);
    Scale(d, 0, 0, alpha);
    Below(m, average, s);
    Scale(d, 0, 0, m - alpha);
    assert m * average - d * alpha == m * c + d * (m - alpha);
    assert m * (c + 1) == m * c + m;
    Below(m, s - 1, c + 1);
  }

  lemma Falls(f: Format, alpha: nat, average: int, c: int)
    requires 0 < alpha < f.smallMax && average - c > f.smallMax / alpha
    ensures c + f.smallMax / alpha <= Step(f, alpha, average, c) < average
  {
    var m, d, s, q := f.smallMax, average - c, Step(f, alpha, average, c), f.smallMax / alpha;
    StepBracket(f, alpha, average, c);
    BlendDeviation(f, alpha, average, c);
    QuotientBounds(m, alpha);
    Scale(0, q + 1, d, alpha);
    assert m * (average - 1) == m * average - m;
    Below(m, s - 1, average - 1);
    Scale(0, q, d, m - alpha);
    assert m * average - d * alpha == m * c + d * (m - alpha);
    assert q * (m - alpha) == m * q - q * alpha;
    assert m * (c + q - 1) == m * c + m * q - m;
    Below(m, c + q - 1, s);
  }

  /** The state of a filter that started at start, n steps away from rest or closer. */
  ghost predicate OnTheWay(f: Format, alpha: nat, start: int, c: int, a: int, n: nat)
    requires alpha > 0
  {
    var target := Settled(f, alpha, start, c);
    && Settled(f, alpha, a, c) == target
    && (start <= a <= target || target <= a <= start)
    && (Distance(a, target) + n <= Distance(start, target) || a == target)
  }

  lemma StepOnTheWay(f: Format, alpha: nat, start: int, c: int, a: int, n: nat)
    requires 0 < alpha < f.smallMax && OnTheWay(f, alpha, start, c, a, n)
    ensures OnTheWay(f, alpha, start, c, Step(f, alpha, a, c), n + 1)
  {
    StepApproaches(f, alpha, a, c);
  }

  lemma WayStaysInRange(f: Format, alpha: nat, start: int, c: int, a: int, n: nat)
    requires 0 < alpha < f.smallMax && OnTheWay(f, alpha, start, c, a, n)
    requires InMedium(f, start) && InMedium(f, c) && c + 1 <= f.mediumMax
    ensures InMedium(f, a)
  {
    QuotientBounds(f.smallMax, alpha);
  }

  /** The average after n inputs of c. */
  function Held(f: Format, alpha: nat, start: int, c: int, n: nat): int
    requires Provided(f)
  {
    After(f, alpha, start, Repeat(c, n))
  }

  lemma HeldNext(f: Format, alpha: nat, start: int, c: int, n: nat)
    requires Provided(f)
    ensures Held(f, alpha, start, c, n + 1) == Update(f, alpha, Held(f, alpha, start, c, n), c)
  {
    assert Repeat(c, n + 1)[..n] == Repeat(c, n);
  }

  /** Held at c, the average reaches its resting value after as many steps as it is away from it, and
      stays there; on the way it never leaves the span between the two, so nothing wraps. */
  lemma {:induction false} Settles(f: Format, alpha: nat, start: int, c: int, n: nat)
    requires Provided(f) && 0 < alpha < f.smallMax
    requires InMedium(f, start) && InMedium(f, c) && c + 1 <= f.mediumMax
    ensures OnTheWay(f, alpha, start, c, Held(f, alpha, start, c, n), n)
    ensures n >= Distance(start, Settled(f, alpha, start, c)) ==> Held(f, alpha, start, c, n) == Settled(f, alpha, start, c)
  {
    if n > 0 {
      var before := Held(f, alpha, start, c, n - 1);
      HeldNext(f, alpha, start, c, n - 1);
      Settles(f, alpha, start, c, n - 1);
      StepOnTheWay(f, alpha, start, c, before, n - 1);
      WayStaysInRange(f, alpha, start, c, Step(f, alpha, before, c), n);
    } else {
      StartOnTheWay(f, alpha, start, c);
    }
  }

  lemma StartOnTheWay(f: Format, alpha: nat, start: int, c: int)
    requires 0 < alpha < f.smallMax
    ensures OnTheWay(f, alpha, start, c, start, 0)
  {
    QuotientBounds(f.smallMax, alpha);
  }

  /** From some point on the average does not change any more. */
  ghost predicate Rests(f: Format, alpha: nat, start: int, c: int)
    requires Provided(f)
  {
    exists r: nat :: RestsFrom(f, alpha, start, c, r)
  }

  ghost predicate RestsFrom(f: Format, alpha: nat, start: int, c: int, r: nat)
    requires Provided(f)
  {
    forall n: nat :: n >= r ==> Held(f, alpha, start, c, n) == Held(f, alpha, start, c, r)
  }

  /** At full scale every step climbs, up to one above the type, and from there the average wraps; it never
      stands still. */
  lemma FullScaleStep(f: Format, alpha: nat, average: int)
    requires Provided(f) && alpha < f.smallMax && InMedium(f, average)
    ensures var s := Step(f, alpha, average, f.mediumMax);
      && average < s <= f.mediumMax + 1
      && Update(f, alpha, average, f.mediumMax) == (if s <= f.mediumMax then s else f.mediumMin)
      && Update(f, alpha, average, f.mediumMax) != average
  {
    var s := Step(f, alpha, average, f.mediumMax);
    ClimbsTo(f, alpha, average, f.mediumMax);
    StoredAt(f, alpha, average, f.mediumMax, s);
    if average == f.mediumMin {
      BottomDoesNotWrap(f, alpha);
    }
  }

  /** Up to the input every average climbs, with or without a weight, and no further than one above it. */
  lemma ClimbsTo(f: Format, alpha: nat, average: int, c: int)
    requires 0 <= alpha < f.smallMax && average <= c
    ensures average < Step(f, alpha, average, c) <= c + 1
  {
    if alpha == 0 {
      ZeroWeightDrifts(f, average, c);
    } else {
      Climbs(f, alpha, average, c);
    }
  }

  lemma BottomDoesNotWrap(f: Format, alpha: nat)
    requires Provided(f) && alpha < f.smallMax
    ensures Step(f, alpha, f.mediumMin, f.mediumMax) <= f.mediumMax
  {
    var m, top, range, s := f.smallMax, f.mediumMax, f.mediumMax - f.mediumMin, Step(f, alpha, f.mediumMin, f.mediumMax);
    StepBracket(f, alpha, f.mediumMin, top);
    BlendDeviation(f, alpha, f.mediumMin, top);
    Scale(0, alpha, m - 1, range);
    assert m * top == m * f.mediumMin + m * range && (m - 1) * range == m * range - range;
    Below(m, s - 1, top);
  }

  /** Held at any input, an average comes to rest exactly when it has a weight and the input is not at full
      scale. (Where it rests is said by Settles.) */
  lemma RestsIff(f: Format, alpha: nat, start: int, c: int)
    requires Provided(f) && alpha < f.smallMax && InMedium(f, start) && InMedium(f, c)
    ensures Rests(f, alpha, start, c) <==> alpha > 0 && c < f.mediumMax
  {
    if alpha > 0 && c < f.mediumMax {
      var r := Distance(start, Settled(f, alpha, start, c));
      forall n: nat | n >= r
        ensures Held(f, alpha, start, c, n) == Held(f, alpha, start, c, r)
      {
        Settles(f, alpha, start, c, n);
        Settles(f, alpha, start, c, r);
      }
      assert RestsFrom(f, alpha, start, c, r);
    } else if Rests(f, alpha, start, c) {
      var r: nat :| RestsFrom(f, alpha, start, c, r);
      assert Held(f, alpha, start, c, r + 1) == Held(f, alpha, start, c, r);
      HeldNext(f, alpha, start, c, r);
      NeverStill(f, alpha, Held(f, alpha, start, c, r), c);
    }
  }

  /** Without a weight, or at full scale, no average stays as it is. */
  lemma NeverStill(f: Format, alpha: nat, average: int, c: int)
    requires Provided(f) && alpha < f.smallMax && InMedium(f, average) && InMedium(f, c)
    requires alpha == 0 || c == f.mediumMax
    ensures Update(f, alpha, average, c) != average
  {
    if c == f.mediumMax {
      FullScaleStep(f, alpha, average);
    } else {
      ZeroWeightDrifts(f, average, c);
      StoredAt(f, alpha, average, c, average + 1);
    }
  }

  /** Held at full scale, the average falls back to the other end of its type again and again: after any number
      of inputs it does so within as many more as it is away from wrapping. */
  lemma {:induction false} FullScaleFallsBack(f: Format, alpha: nat, start: int, n: nat) returns (k: nat)
    requires Provided(f) && alpha < f.smallMax && InMedium(f, start)
    ensures n < k <= n + (f.mediumMax + 1 - Held(f, alpha, start, f.mediumMax, n))
    ensures Held(f, alpha, start, f.mediumMax, k) == f.mediumMin
    decreases f.mediumMax + 1 - Held(f, alpha, start, f.mediumMax, n)
  {
    var a := Held(f, alpha, start, f.mediumMax, n);
    HeldNext(f, alpha, start, f.mediumMax, n);
    FullScaleStep(f, alpha, a);
    if Step(f, alpha, a, f.mediumMax) <= f.mediumMax {
      k := FullScaleFallsBack(f, alpha, start, n + 1);
    } else {
      k := n + 1;
    }
  }

  /** The resting value lies above the input by d with 1 <= d <= max(start - c, 1) and d * alpha <= 2^k. */
  lemma RestingOffset(f: Format, alpha: nat, start: int, c: int)
    requires 0 < alpha < f.smallMax
    ensures var d := Settled(f, alpha, start, c) - c;
      && 1 <= d <= (if start - c > 1 then start - c else 1)
      && d * alpha <= f.smallMax
  {
    var d := Settled(f, alpha, start, c) - c;
    QuotientBounds(f.smallMax, alpha);
    Scale(0, d, f.smallMax / alpha, alpha);
  }
}
