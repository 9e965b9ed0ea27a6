/** A bitmap packed eight pixels to a byte, row by row, most significant bit first. */
module MBitmap {
  import opened Bytes

  type octet = bv8
  /** Values of the 16-bit fields. */
  const FIELD: nat := 0x1_0000

  /** byte_width: a shift, so it rounds down for negative arguments too. */
  function ByteWidth(w: int): int { Wrap(w + 7) / 8 }

  /** size: the bytes of a bitmap of w by h pixels, in the machine's integers. */
  function Size(w: int, h: int): int { Wrap(h * ByteWidth(w)) }

  /** Neither argument is negative, and the machine's integers hold their size. */
  predicate Representable(w: int, h: int) {
    0 <= w && 0 <= h && w + 7 <= INT_MAX && h * ((w + 7) / 8) <= INT_MAX
  }

  function Offset(columns: nat, x: nat, y: nat): nat { x / 8 + y * columns }

  function Mask(x: nat): octet { (1 as octet) << (7 - x % 8) }

  predicate Bit(b: octet, x: nat) { b & Mask(x) != 0 }

  // ---------------------------------------------------------------- bits and offsets

  function BitMask(i: nat): octet
    requires i < 8
  {
    match i
    case 0 => 0x80
    case 1 => 0x40
    case 2 => 0x20
    case 3 => 0x10
    case 4 => 0x08
    case 5 => 0x04
    case 6 => 0x02
    case _ => 0x01
  }

  lemma MaskIsBit(x: nat)
    ensures Mask(x) == BitMask(x % 8)
  {
    var i := x % 8;
    if i == 0 { assert (1 as octet) << 7 == 0x80; }
    else if i == 1 { assert (1 as octet) << 6 == 0x40; }
    else if i == 2 { assert (1 as octet) << 5 == 0x20; }
    else if i == 3 { assert (1 as octet) << 4 == 0x10; }
    else if i == 4 { assert (1 as octet) << 3 == 0x08; }
    else if i == 5 { assert (1 as octet) << 2 == 0x04; }
    else if i == 6 { assert (1 as octet) << 1 == 0x02; }
    else { assert (1 as octet) << 0 == 0x01; }
  }

  lemma MasksOnBytes(b: octet, m: octet, n: octet)
    requires m != 0 && (m == n || m & n == 0)
    ensures ((b | m) & n != 0) == (m == n || b & n != 0)
    ensures ((b & !m) & n != 0) == (m != n && b & n != 0)
  {
  }

  lemma BitMasksDiffer(i: nat, j: nat)
    requires i < 8 && j < 8
    ensures BitMask(i) != 0 && (i != j ==> BitMask(i) & BitMask(j) == 0 && BitMask(i) != BitMask(j))
  {
  }

  lemma MasksDiffer(x: nat, other: nat)
    ensures Mask(x) != 0
    ensures if x % 8 == other % 8 then Mask(x) == Mask(other) else Mask(x) & Mask(other) == 0 && Mask(x) != Mask(other)
  {
    MaskIsBit(x);
    MaskIsBit(other);
    BitMasksDiffer(x % 8, other % 8);
  }

  /** Setting or clearing the bit of one pixel in a byte leaves the bits of the seven others alone. */
  lemma OneBit(b: octet, x: nat, other: nat)
    ensures Bit(b | Mask(x), other) == (x % 8 == other % 8 || Bit(b, other))
    ensures Bit(b & !Mask(x), other) == (x % 8 != other % 8 && Bit(b, other))
  {
    MasksDiffer(x, other);
    MasksOnBytes(b, Mask(x), Mask(other));
  }

  // ---------------------------------------------------------------- the picture in memory

  /** A row of bytes read as one number, the first byte the most significant. */
  function RowNumber(row: seq<octet>): nat {
    if row == [] then 0 else 0x100 * RowNumber(row[..|row| - 1]) + row[|row| - 1] as int
  }

  lemma Doubled(p: nat, q: nat)
    ensures (2 * p) * q == 2 * (p * q)
  {
  }

  /** Putting a number of n bits behind another one keeps its bits and moves those of the other up by n. */
  lemma {:induction false} BitsJoin(high: nat, low: nat, n: nat, k: nat)
    requires low < Power2(n)
    ensures BitSet(Power2(n) * high + low, k) <==> if k < n then BitSet(low, k) else BitSet(high, k - n)
  {
    if n > 0 {
      var rest := Power2(n - 1) * high + low / 2;
      Doubled(Power2(n - 1), high);
      assert low == 2 * (low / 2) + low % 2;
      assert Power2(n) * high + low == 2 * rest + low % 2;
      if k == 0 {
        Halved(rest, low % 2, 0);
        Halved(low / 2, low % 2, 0);
      } else {
        Halved(rest, low % 2, k - 1);
        Halved(low / 2, low % 2, k - 1);
        BitsJoin(high, low / 2, n - 1, k - 1);
      }
    }
  }

  function Digit(b: octet, i: nat): nat
    requires i < 8
  {
    if b & BitMask(i) != 0 then 1 else 0
  }

  /** The number that the first n bits of a byte make up. */
  function FirstBits(b: octet, n: nat): nat
    requires n <= 8
  {
    if n == 0 then 0 else 2 * FirstBits(b, n - 1) + Digit(b, n - 1)
  }

  lemma FirstBitsAddUp(b: octet)
    ensures FirstBits(b, 8) == 128 * Digit(b, 0) + 64 * Digit(b, 1) + 32 * Digit(b, 2) + 16 * Digit(b, 3)
      + 8 * Digit(b, 4) + 4 * Digit(b, 5) + 2 * Digit(b, 6) + Digit(b, 7)
  {
    TwoMoreBits(b, 0);
    TwoMoreBits(b, 2);
    TwoMoreBits(b, 4);
    TwoMoreBits(b, 6);
  }

  lemma TwoMoreBits(b: octet, n: nat)
    requires n + 2 <= 8
    ensures FirstBits(b, 0) == 0 && FirstBits(b, n + 2) == 4 * FirstBits(b, n) + 2 * Digit(b, n) + Digit(b, n + 1)
  {
    assert FirstBits(b, n + 1) == 2 * FirstBits(b, n) + Digit(b, n);
  }

  lemma DigitsAddUp(b: octet)
    ensures b as int == 128 * Digit(b, 0) + 64 * Digit(b, 1) + 32 * Digit(b, 2) + 16 * Digit(b, 3)
      + 8 * Digit(b, 4) + 4 * Digit(b, 5) + 2 * Digit(b, 6) + Digit(b, 7)
  {
  }

  lemma AllBits(b: octet)
    ensures FirstBits(b, 8) == b as int
  {
    FirstBitsAddUp(b);
    DigitsAddUp(b);
  }

  lemma {:induction false} BitOfFirst(b: octet, n: nat, i: nat)
    requires i < n <= 8
    ensures b & BitMask(i) != 0 <==> BitSet(FirstBits(b, n), n - 1 - i)
  {
    if i == n - 1 {
      Halved(FirstBits(b, n - 1), Digit(b, n - 1), 0);
    } else {
      BitOfFirst(b, n - 1, i);
      Halved(FirstBits(b, n - 1), Digit(b, n - 1), n - 2 - i);
    }
  }

  /** The first pixel of a byte is its most significant bit. */
  lemma BitInByte(b: octet, x: nat)
    ensures Bit(b, x) <==> BitSet(b as int, 7 - x % 8)
  {
    MaskIsBit(x);
    AllBits(b);
    BitOfFirst(b, 8, x % 8);
  }

  /** Pixel x of a row is the x-th most significant bit of the row. */
  lemma {:induction false} PixelOfRow(row: seq<octet>, x: nat)
    requires x < 8 * |row|
    ensures Bit(row[x / 8], x) <==> BitSet(RowNumber(row), 8 * |row| - 1 - x)
  {
    var last, init := |row| - 1, row[..|row| - 1];
    if x / 8 == last {
      BitInByte(row[last], x);
    } else {
      PixelOfRow(init, x);
    }
    assert Power2(8) == 0x100;
    BitsJoin(RowNumber(init), row[last] as int, 8, 8 * |row| - 1 - x);
  }

  /** Two pixels of a row-aligned bitmap share a byte only if they share a row and a column of bytes. */
  lemma OffsetsDiffer(columns: nat, x: nat, y: nat, x': nat, y': nat)
    requires x < 8 * columns && x' < 8 * columns && Offset(columns, x, y) == Offset(columns, x', y')
    ensures y == y' && x / 8 == x' / 8
  {
    assert (y + 1) * columns == y * columns + columns && (y' + 1) * columns == y' * columns + columns;
    Below(columns, y, y' + 1);
    Below(columns, y', y + 1);
  }

  lemma SamePixel(columns: nat, x: nat, y: nat, x': nat, y': nat)
    requires x < 8 * columns && x' < 8 * columns
    requires Offset(columns, x, y) == Offset(columns, x', y') && x % 8 == x' % 8
    ensures x == x' && y == y'
  {
    OffsetsDiffer(columns, x, y, x', y');
  }

  /** A byte with the bit of (x, y) set or cleared, seen from another pixel in that byte. */
  lemma ByteChanged(b: octet, columns: nat, x: nat, y: nat, x': nat, y': nat)
    requires x < 8 * columns && x' < 8 * columns && Offset(columns, x, y) == Offset(columns, x', y')
    ensures Bit(b | Mask(x), x') == ((x' == x && y' == y) || Bit(b, x'))
    ensures Bit(b & !Mask(x), x') == (!(x' == x && y' == y) && Bit(b, x'))
  {
    OneBit(b, x, x');
    if x % 8 == x' % 8 {
      SamePixel(columns, x, y, x', y');
    }
  }

  lemma OffsetInside(columns: nat, rows: nat, x: nat, y: nat)
    requires x < 8 * columns && y < rows
    ensures Offset(columns, x, y) < columns * rows
  {
    assert (y + 1) * columns <= rows * columns;
  }

  // ---------------------------------------------------------------- resizing

  /** What setsize does with its arguments: accept them, and cut them to the fields. */
  predicate SetSizeAccepts(dataSize: nat, w: int, h: int) { Size(w, h) <= dataSize }

  function Stored(v: int): nat { v % FIELD }

  /** Every pixel that the bounds checks let through lies inside an allocation. */
  ghost predicate Inside(w: nat, h: nat, columns: nat, bytes: nat) {
    forall x, y :: 0 <= x < w && 0 <= y < h ==> Offset(columns, x, y) < bytes
  }

  lemma WidthIsCovered(w: nat)
    requires w + 7 <= INT_MAX
    ensures 0 <= ByteWidth(w) && w <= 8 * ByteWidth(w)
  {
  }

  /** An accepted size that the machine represents keeps every pixel inside, although the fields are cut to 16
      bits. */
  lemma AcceptedSizesAreSafe(dataSize: nat, w: int, h: int)
    requires dataSize < FIELD && Representable(w, h) && SetSizeAccepts(dataSize, w, h)
    ensures h == 0 || Stored(w) <= 8 * Stored(ByteWidth(w))
    ensures Stored(ByteWidth(w)) * Stored(h) <= dataSize
    ensures Inside(Stored(w), Stored(h), Stored(ByteWidth(w)), dataSize)
  {
    WidthIsCovered(w);
    var columns: nat := ByteWidth(w);
    SizeIsExact(w, h);
    StoredIsSmaller(w);
    StoredIsSmaller(columns);
    StoredIsSmaller(h);
    Products(Stored(columns), columns, Stored(h), h);
    if h > 0 {
      Products(1, h, columns, columns);
      SmallIsStored(columns);
      CoveredIsInside(Stored(w), Stored(h), columns, dataSize);
    }
  }

  lemma SizeIsExact(w: nat, h: nat)
    requires Representable(w, h)
    ensures Size(w, h) == h * ByteWidth(w)
  {
    Products(0, h, 0, (w + 7) / 8);
  }

  lemma FieldsAreRepresentable(w: nat, h: nat)
    requires w < FIELD && h < FIELD
    ensures Representable(w, h) && Size(w, h) == h * ((w + 7) / 8)
  {
    Products(h, FIELD, (w + 7) / 8, 8192);
    SizeIsExact(w, h);
  }

  lemma CoveredIsInside(w: nat, h: nat, columns: nat, bytes: nat)
    requires w <= 8 * columns && columns * h <= bytes
    ensures Inside(w, h, columns, bytes)
  {
    forall x, y | 0 <= x < w && 0 <= y < h
      ensures Offset(columns, x, y) < bytes
    {
      OffsetInside(columns, h, x, y);
    }
  }

  /** The last pixel that the bounds checks let through, if there is one, lies inside. */
  predicate LastPixelFits(w: nat, h: nat, columns: nat, bytes: nat) {
    w == 0 || h == 0 || Offset(columns, w - 1, h - 1) < bytes
  }

  lemma InsideIffLastPixelFits(w: nat, h: nat, columns: nat, bytes: nat)
    ensures Inside(w, h, columns, bytes) <==> LastPixelFits(w, h, columns, bytes)
  {
    forall x, y | 0 <= x < w && 0 <= y < h
      ensures Offset(columns, x, y) <= Offset(columns, w - 1, h - 1)
    {
      Products(y, h - 1, columns, columns);
    }
  }

  /** Which accepted sizes are safe: all that the machine represents, and of the others those whose last pixel,
      computed from the fields as they are cut, still fits. */
  lemma AcceptedIsSafeIff(bytes: nat, dataSize: nat, w: int, h: int)
    requires IsInt(w) && IsInt(h)
    requires dataSize < FIELD && dataSize <= bytes && SetSizeAccepts(dataSize, w, h)
    ensures Inside(Stored(w), Stored(h), Stored(ByteWidth(w)), bytes)
      <==> Representable(w, h) || LastPixelFits(Stored(w), Stored(h), Stored(ByteWidth(w)), bytes)
  {
    InsideIffLastPixelFits(Stored(w), Stored(h), Stored(ByteWidth(w)), bytes);
    if Representable(w, h) {
      AcceptedSizesAreSafe(dataSize, w, h);
    }
  }

  lemma StoredIsSmaller(v: nat)
    ensures Stored(v) <= v
  {
  }

  lemma SmallIsStored(v: nat)
    requires v < FIELD
    ensures Stored(v) == v
  {
  }

  lemma Products(a: nat, b: nat, c: nat, d: nat)
    requires a <= b && c <= d
    ensures a * c <= d * b
  {
    assert a * c <= b * c <= b * d;
  }

  /** Negative widths are accepted by every bitmap and leave no byte columns: the last pixel of the first row
      of a bitmap of at most 8191 bytes is then outside. */
  lemma NegativeWidthEscapes(bytes: nat, dataSize: nat, w: int, h: int)
    requires bytes <= 8191 && -7 <= w < 0 && 0 < h < FIELD
    ensures SetSizeAccepts(dataSize, w, h) && !Inside(Stored(w), Stored(h), Stored(ByteWidth(w)), bytes)
  {
    assert ByteWidth(w) == 0 && h * ByteWidth(w) == 0;
    assert Stored(w) == FIELD + w;
    assert Offset(0, 65528, 0) == 8191;
  }

  /** Negative heights are accepted too, and row 32767 is then outside any allocation of at most 32767 bytes. */
  lemma NegativeHeightEscapes(bytes: nat, dataSize: nat, w: int, h: int)
    requires 0 < w < FIELD && -0x8000 <= h < 0 && bytes <= 0x7FFF
    ensures SetSizeAccepts(dataSize, w, h) && !Inside(Stored(w), Stored(h), Stored(ByteWidth(w)), bytes)
  {
    var c := ByteWidth(w);
    assert 1 <= c <= 8192;
    NegativeSize(h, c);
    SmallIsStored(w);
    SmallIsStored(c);
    assert Stored(h) == FIELD + h;
    assert Offset(c, 0, 0x7FFF) == 0x7FFF * c >= 0x7FFF;
  }

  lemma NegativeSize(h: int, c: nat)
    requires -0x8000 <= h < 0 && c <= 8192
    ensures Wrap(h * c) <= 0
  {
    Products(-h, 0x8000, c, 8192);
    Negated(h, c);
    WrapKeepsSmall((-h) * c);
  }

  lemma Negated(h: int, c: int)
    ensures h * c == -((-h) * c)
  {
  }

  lemma WrapKeepsSmall(v: int)
    requires 0 <= v <= 0x1000_0000
    ensures Wrap(-v) == -v
  {
  }

  /** A size need not be negative for its product to be: the product of this one wraps, so every bitmap accepts
      it, and its last pixel is outside any allocation of at most 65535 bytes. */
  lemma OverflowEscapes(bytes: nat, dataSize: nat)
    requires bytes < FIELD
    ensures var w, h := 370728, 46341;
      SetSizeAccepts(dataSize, w, h) && !Inside(Stored(w), Stored(h), Stored(ByteWidth(w)), bytes)
  {
    assert ByteWidth(370728) == 46341 && Size(370728, 46341) == -2147479015;
    assert Stored(370728) == 43048 && Stored(46341) == 46341;
    assert Offset(46341, 0, 2) == 92682;
  }

  // ---------------------------------------------------------------- the bitmap

  class MBitmap {
    var mem: array<octet>
    var w: nat
    var columns: nat
    var yMax: nat
    const dataSize: nat

    ghost predicate Valid()
      reads this
    {
      && (yMax == 0 || w <= 8 * columns)
      && columns * yMax <= mem.Length && dataSize <= mem.Length && dataSize < FIELD
    }

    /** The pixel at (x, y), read from its byte. */
    predicate Pixel(x: nat, y: nat)
      requires Valid() && x < w && y < yMax
      reads this, mem
    {
      OffsetInside(columns, yMax, x, y);
      Bit(mem[Offset(columns, x, y)], x)
    }

    /** The picture in memory: row y is the y-th stretch of `columns` bytes, and its pixel x the x-th most
        significant bit. */
    lemma PixelInMemory(x: nat, y: nat)
      requires Valid() && x < w && y < yMax
      ensures columns * y + columns <= mem.Length
      ensures Pixel(x, y) <==> BitSet(RowNumber(mem[columns * y..columns * y + columns]), 8 * columns - 1 - x)
    {
      assert columns * (y + 1) == columns * y + columns <= columns * yMax;
      OffsetInside(columns, yMax, x, y);
      PixelOfRow(mem[columns * y..columns * y + columns], x);
    }

    /** A bitmap in memory of its own; its contents are arbitrary. */
    constructor (w: nat, h: nat)
      requires w < FIELD && h < FIELD
      ensures Valid() && fresh(mem) && this.w == w && this.yMax == h
    {
      FieldsAreRepresentable(w, h);
      var bytes: nat := Size(w, h);
      mem := new octet[bytes];
      this.w := w;
      columns := (w + 7) / 8;
      yMax := h;
      dataSize := bytes % FIELD;
      new;
      StoredIsSmaller(bytes);
    }

    /** A bitmap in memory of the caller's, which must be large enough. */
    constructor In(mem: array<octet>, w: nat, h: nat)
      requires w < FIELD && h < FIELD && h * ((w + 7) / 8) <= mem.Length
      ensures Valid() && this.mem == mem && this.w == w && this.yMax == h
    {
      FieldsAreRepresentable(w, h);
      this.mem := mem;
      this.w := w;
      columns := (w + 7) / 8;
      yMax := h;
      dataSize := Size(w, h) % FIELD;
      new;
      StoredIsSmaller(h * ((w + 7) / 8));
    }

    /** tstpixel: not checked against the bounds, so the caller answers for the byte being there; in range it
        is the pixel that is read. */
    method TstPixel(x: nat, y: nat) returns (set': bool)
      requires Valid() && Offset(columns, x, y) < mem.Length
      ensures set' == Bit(mem[Offset(columns, x, y)], x)
      ensures x < w && y < yMax ==> set' == Pixel(x, y)
    {
      set' := mem[Offset(columns, x, y)] & Mask(x) != 0;
    }

    /** In range, the byte that tstpixel reads is there. */
    lemma InRangeIsThere(x: nat, y: nat)
      requires Valid() && x < w && y < yMax
      ensures Offset(columns, x, y) < mem.Length
    {
      OffsetInside(columns, yMax, x, y);
    }

    /** Sets the pixel if it is in range, and changes no other. */
    method SetPixel(x: nat, y: nat)
      requires Valid()
      modifies mem
      ensures forall x', y' :: 0 <= x' < w && 0 <= y' < yMax ==>
        Pixel(x', y') == ((x' == x && y' == y) || old(Pixel(x', y')))
    {
      if x < w && y < yMax {
        OffsetInside(columns, yMax, x, y);
        var at := Offset(columns, x, y);
        mem[at] := mem[at] | Mask(x);
        forall x', y' | 0 <= x' < w && 0 <= y' < yMax
          ensures Pixel(x', y') == ((x' == x && y' == y) || old(Pixel(x', y')))
        {
          OffsetInside(columns, yMax, x', y');
          if Offset(columns, x', y') == at {
            ByteChanged(old(mem[at]), columns, x, y, x', y');
          }
        }
      }
    }

    /** Clears the pixel if it is in range, and changes no other. */
    method ClrPixel(x: nat, y: nat)
      requires Valid()
      modifies mem
      ensures forall x', y' :: 0 <= x' < w && 0 <= y' < yMax ==>
        Pixel(x', y') == (!(x' == x && y' == y) && old(Pixel(x', y')))
    {
      if x < w && y < yMax {
        OffsetInside(columns, yMax, x, y);
        var at := Offset(columns, x, y);
        mem[at] := mem[at] & !Mask(x);
        forall x', y' | 0 <= x' < w && 0 <= y' < yMax
          ensures Pixel(x', y') == (!(x' == x && y' == y) && old(Pixel(x', y')))
        {
          OffsetInside(columns, yMax, x', y');
          if Offset(columns, x', y') == at {
            ByteChanged(old(mem[at]), columns, x, y, x', y');
          }
        }
      }
    }

    method Clear()
      requires Valid()
      modifies mem
      ensures forall x', y' :: 0 <= x' < w && 0 <= y' < yMax ==> !Pixel(x', y')
      ensures forall i :: columns * yMax <= i < mem.Length ==> mem[i] == old(mem[i])
    {
      var n := columns * yMax;
      for i := 0 to n
        invariant forall k :: 0 <= k < i ==> mem[k] == 0
        invariant forall k :: n <= k < mem.Length ==> mem[k] == old(mem[k])
      {
        mem[i] := 0;
      }
      forall x', y' | 0 <= x' < w && 0 <= y' < yMax
        ensures !Pixel(x', y')
      {
        OffsetInside(columns, yMax, x', y');
        ZeroHasNoBits(x');
      }
    }

    /** setsize: accepted when the size it computes is not larger than the first one. */
    method SetSize(nw: int, nh: int) returns (ret: int)
      requires Valid() && IsInt(nw) && IsInt(nh)
      modifies this`w, this`columns, this`yMax
      ensures ret == if SetSizeAccepts(dataSize, nw, nh) then 0 else -1
      ensures ret == 0 ==> w == Stored(nw) && yMax == Stored(nh) && columns == Stored(ByteWidth(nw))
      ensures ret != 0 ==> Valid() && w == old(w) && yMax == old(yMax) && columns == old(columns)
      ensures Representable(nw, nh) ==> Valid()
      ensures ret == 0 ==> (Inside(w, yMax, columns, mem.Length)
        <==> Representable(nw, nh) || LastPixelFits(w, yMax, columns, mem.Length))
    {
      if Wrap(nh * (Wrap(nw + 7) / 8)) <= dataSize {
        w := nw % FIELD;
        yMax := nh % FIELD;
        columns := (Wrap(nw + 7) / 8) % FIELD;
        AcceptedIsSafeIff(mem.Length, dataSize, nw, nh);
        if Representable(nw, nh) {
          AcceptedSizesAreSafe(dataSize, nw, nh);
        }
        return 0;
      }
      ret := -1;
    }
  }

  datatype Op = Set(x: nat, y: nat) | Clr(x: nat, y: nat) | ClearAll

  /** The plain picture: what a sequence of operations makes of the pixel at (x, y). */
  function PixelAfter(ops: seq<Op>, x: nat, y: nat, before: bool): bool {
    if ops == [] then before
    else match ops[|ops| - 1]
      case Set(a, b) => (a == x && b == y) || PixelAfter(ops[..|ops| - 1], x, y, before)
      case Clr(a, b) => !(a == x && b == y) && PixelAfter(ops[..|ops| - 1], x, y, before)
      case ClearAll => false
  }

  /** After any sequence of operations the packed bytes show the plain picture at every pixel in range. */
  method Replay(b: MBitmap, ops: seq<Op>)
    requires b.Valid()
    modifies b.mem
    ensures b.Valid()
    ensures forall x, y :: 0 <= x < b.w && 0 <= y < b.yMax ==> b.Pixel(x, y) == PixelAfter(ops, x, y, old(b.Pixel(x, y)))
  {
    for i := 0 to |ops|
      invariant forall x, y :: 0 <= x < b.w && 0 <= y < b.yMax ==>
        b.Pixel(x, y) == PixelAfter(ops[..i], x, y, old(b.Pixel(x, y)))
    {
      assert ops[..i + 1][..i] == ops[..i];
      match ops[i] {
        case Set(x, y) => b.SetPixel(x, y);
        case Clr(x, y) => b.ClrPixel(x, y);
        case ClearAll => b.Clear();
      }
    }
    assert ops[..|ops|] == ops;
  }

  lemma ZeroHasNoBits(x: nat)
    ensures !Bit(0, x)
  {
  }
}
