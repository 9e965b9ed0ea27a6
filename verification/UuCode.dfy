/** UU encoding of one line, as the LPC serial bootloader uses it.

    Masks and shifts are written as division and remainder by powers of two. A line is a length
    character, four characters for every three bytes, and CR LF; in memory a zero byte follows.
 */
module UuCode {
  import opened Bytes

  const CR: byte := 13
  const LF: byte := 10
  const MAX_LINE: nat := 45
  const TEMP_SIZE: nat := 64
  const CALLER_BUFFER: nat := 128

  function EncodeChar6(x: byte): byte {
    var out := x % 64 + 32;
    if out == 32 then 96 else out
  }

  function DecodeChar8(x: byte): (r: byte)
    ensures r < 64
  {
    (x - 32) % 64
  }

  function EncodeWord24(a: byte, b: byte, c: byte): (w: seq<byte>)
    ensures |w| == 4
  {
    [EncodeChar6(a / 4), EncodeChar6((a % 4) * 16 + b / 16), EncodeChar6((b % 16) * 4 + c / 64), EncodeChar6(c % 64)]
  }

  function DecodeWord24(w: byte, x: byte, y: byte, z: byte): (d: seq<byte>)
    ensures |d| == 3
  {
    var d0, d1, d2, d3 := DecodeChar8(w), DecodeChar8(x), DecodeChar8(y), DecodeChar8(z);
    [d0 * 4 + d1 / 16, (d1 % 16) * 16 + d2 / 4, (d2 % 4) * 64 + d3]
  }

  function Groups(n: nat): nat { (n + 2) / 3 }

  /** The byte at i of a source that is padded with zeros. */
  function At(s: seq<byte>, i: nat): byte { if i < |s| then s[i] else 0 }

  /** The characters of the first g groups of s. */
  function Body(s: seq<byte>, g: nat): (b: seq<byte>)
    ensures |b| == 4 * g
  {
    if g == 0 then []
    else Body(s, g - 1) + EncodeWord24(At(s, 3 * g - 3), At(s, 3 * g - 2), At(s, 3 * g - 1))
  }

  function LengthChar(n: nat): byte { n % 64 + 32 }

  /** The length character and the characters of the first g groups. */
  function Head(s: seq<byte>, g: nat): (h: seq<byte>)
    ensures |h| == 1 + 4 * g
  {
    [LengthChar(|s|)] + Body(s, g)
  }

  lemma HeadNext(s: seq<byte>, g: nat)
    ensures Head(s, g + 1) == Head(s, g) + EncodeWord24(At(s, 3 * g), At(s, 3 * g + 1), At(s, 3 * g + 2))
  {
    ConcatAssociates([LengthChar(|s|)], Body(s, g), EncodeWord24(At(s, 3 * g), At(s, 3 * g + 1), At(s, 3 * g + 2)));
  }

  function Line(s: seq<byte>): (t: seq<byte>)
    ensures |t| == 3 + 4 * Groups(|s|)
  {
    Head(s, Groups(|s|)) + [CR, LF]
  }

  /** The bytes of the first g groups of a line. */
  function Decoded(line: seq<byte>, g: nat): (d: seq<byte>)
    requires 4 * g < |line|
    ensures |d| == 3 * g
  {
    if g == 0 then []
    else Decoded(line, g - 1) + DecodeWord24(line[4 * g - 3], line[4 * g - 2], line[4 * g - 1], line[4 * g])
  }

  predicate WellFormed(line: seq<byte>) {
    line != [] && 4 * Groups(DecodeChar8(line[0])) < |line|
  }

  /** The bytes a line announces. */
  function Payload(line: seq<byte>): (d: seq<byte>)
    requires WellFormed(line)
  {
    var n := DecodeChar8(line[0]);
    Decoded(line, Groups(n))[..n]
  }

  /** The position of the first line end in text[i..limit], or limit if there is none. */
  function ScanFor(text: seq<byte>, i: nat, limit: nat): (p: nat)
    requires i <= limit <= |text|
    ensures i <= p <= limit
    decreases limit - i
  {
    if i == limit || text[i] == CR || text[i] == LF then i else ScanFor(text, i + 1, limit)
  }

  function ScanLimit(n: nat): nat { n * 4 / 3 + 8 }

  /** The number of characters the decoder finds after the length character; zero without a line end. */
  function TextLength(text: seq<byte>, n: nat): (len: nat)
    requires ScanLimit(n) <= |text|
    ensures len <= ScanLimit(n) - 2
  {
    var p := ScanFor(text, 1, ScanLimit(n));
    if p < ScanLimit(n) then p - 1 else 0
  }

  // ---------------------------------------------------------------- round trip

  lemma CharRoundTrip(x: byte)
    requires x < 64
    ensures DecodeChar8(EncodeChar6(x)) == x && 33 <= EncodeChar6(x) <= 96
  {
  }

  lemma Join16(h: nat, l: nat)
    requires l < 16
    ensures (h * 16 + l) / 16 == h && (h * 16 + l) % 16 == l
  {
  }

  lemma Join4(h: nat, l: nat)
    requires l < 4
    ensures (h * 4 + l) / 4 == h && (h * 4 + l) % 4 == l
  {
  }

  lemma WordRoundTrip(a: byte, b: byte, c: byte)
    ensures var w := EncodeWord24(a, b, c); DecodeWord24(w[0], w[1], w[2], w[3]) == [a, b, c]
  {
    var a1, a0, b1, b0, c1, c0 := a / 4, a % 4, b / 16, b % 16, c / 64, c % 64;
    CharRoundTrip(a1);
    CharRoundTrip(a0 * 16 + b1);
    CharRoundTrip(b0 * 4 + c1);
    CharRoundTrip(c0);
    Join16(a0, b1);
    Join4(b0, c1);
    assert a == a1 * 4 + a0 && b == b1 * 16 + b0 && c == c1 * 64 + c0;
  }

  /** The number that four characters make up, each by the six bits it stands for and the first one the most
      significant. */
  function TextNumber(w: byte, x: byte, y: byte, z: byte): nat {
    ((w - 32) % 64) * 0x4_0000 + ((x - 32) % 64) * 0x1000 + ((y - 32) % 64) * 0x40 + (z - 32) % 64
  }

  function DataNumber(a: byte, b: byte, c: byte): nat {
    a as int * 0x1_0000 + b as int * 0x100 + c
  }

  lemma CharInNumbers(x: byte)
    requires x < 64
    ensures 33 <= EncodeChar6(x) <= 96 && (EncodeChar6(x) - 32) % 64 == x
  {
  }

  lemma SplitByte(x: byte, d: nat)
    requires d == 4 || d == 16 || d == 64
    ensures x == d * (x / d) + x % d && x / d < 256 / d && x % d < d
  {
  }

  predicate Printable(c: byte) { 33 <= c <= 96 }

  lemma SixesAddUp(w: byte, x: byte, y: byte, z: byte)
    requires w < 64 && x < 64 && y < 64 && z < 64
    ensures TextNumber(EncodeChar6(w), EncodeChar6(x), EncodeChar6(y), EncodeChar6(z)) == w as int * 0x4_0000 + x as int * 0x1000 + y as int * 0x40 + z
    ensures Printable(EncodeChar6(w)) && Printable(EncodeChar6(x)) && Printable(EncodeChar6(y)) && Printable(EncodeChar6(z))
  {
    CharInNumbers(w);
    CharInNumbers(x);
    CharInNumbers(y);
    CharInNumbers(z);
  }

  /** Four characters of the printable range make up the same number as their three bytes. */
  lemma WordInNumbers(a: byte, b: byte, c: byte)
    ensures var w := EncodeWord24(a, b, c);
      && Printable(w[0]) && Printable(w[1]) && Printable(w[2]) && Printable(w[3])
      && TextNumber(w[0], w[1], w[2], w[3]) == DataNumber(a, b, c)
  {
    SplitByte(a, 4);
    SplitByte(b, 16);
    SplitByte(c, 64);
    SixesAddUp(a / 4, (a % 4) * 16 + b / 16, (b % 16) * 4 + c / 64, c % 64);
  }

  /** Any four characters decode to the three bytes that make up the same number. */
  lemma DecodedInNumbers(w: byte, x: byte, y: byte, z: byte)
    ensures var d := DecodeWord24(w, x, y, z); DataNumber(d[0], d[1], d[2]) == TextNumber(w, x, y, z)
  {
    SplitByte(DecodeChar8(x), 16);
    SplitByte(DecodeChar8(y), 4);
  }

  lemma LengthRoundTrip(n: nat)
    requires n < 64
    ensures DecodeChar8(LengthChar(n)) == n
  {
  }

  lemma {:induction false} BodyGroup(s: seq<byte>, g: nat, h: nat)
    requires 1 <= h <= g
    ensures Body(s, g)[4 * h - 4..4 * h] == EncodeWord24(At(s, 3 * h - 3), At(s, 3 * h - 2), At(s, 3 * h - 1))
    ensures forall k :: 4 * h - 4 <= k < 4 * h ==> 33 <= Body(s, g)[k] <= 96
  {
    if h < g {
      BodyGroup(s, g - 1, h);
      assert Body(s, g)[4 * h - 4..4 * h] == Body(s, g - 1)[4 * h - 4..4 * h];
    } else {
      assert Body(s, g)[4 * h - 4..4 * h] == EncodeWord24(At(s, 3 * h - 3), At(s, 3 * h - 2), At(s, 3 * h - 1));
    }
  }

  /** The four characters of group g of anything that starts with the line of s. */
  lemma GroupInText(s: seq<byte>, text: seq<byte>, g: nat)
    requires Line(s) <= text && 1 <= g <= Groups(|s|)
    ensures 4 * g < |text|
    ensures [text[4 * g - 3], text[4 * g - 2], text[4 * g - 1], text[4 * g]]
      == EncodeWord24(At(s, 3 * g - 3), At(s, 3 * g - 2), At(s, 3 * g - 1))
  {
    var body := Body(s, Groups(|s|));
    BodyGroup(s, Groups(|s|), g);
    forall k | 4 * g - 4 <= k < 4 * g
      ensures text[k + 1] == body[k]
    {
      assert text[k + 1] == Line(s)[k + 1];
    }
    var word := body[4 * g - 4..4 * g];
    assert word[0] == body[4 * g - 4] && word[1] == body[4 * g - 3] && word[2] == body[4 * g - 2] && word[3] == body[4 * g - 1];
  }

  lemma GroupChars(s: seq<byte>, g: nat)
    requires 1 <= g <= Groups(|s|)
    ensures var t, w := Line(s), EncodeWord24(At(s, 3 * g - 3), At(s, 3 * g - 2), At(s, 3 * g - 1));
      t[4 * g - 3] == w[0] && t[4 * g - 2] == w[1] && t[4 * g - 1] == w[2] && t[4 * g] == w[3]
  {
    var t := Line(s);
    GroupInText(s, t, g);
    var four := [t[4 * g - 3], t[4 * g - 2], t[4 * g - 1], t[4 * g]];
    assert four[0] == t[4 * g - 3] && four[1] == t[4 * g - 2] && four[2] == t[4 * g - 1] && four[3] == t[4 * g];
  }

  /** A line as it is on the wire: its length above a blank, four characters for every three bytes, and CR LF. */
  lemma LineFrame(s: seq<byte>)
    requires |s| <= MAX_LINE
    ensures var t := Line(s);
      |t| == 3 + 4 * ((|s| + 2) / 3) && t[0] == 32 + |s| && t[|t| - 2] == 13 && t[|t| - 1] == 10
  {
    var h, t := Head(s, Groups(|s|)), Line(s);
    assert t == h + [CR, LF] && h[0] == LengthChar(|s|);
    assert t[0] == h[0] && t[|h|] == CR && t[|h| + 1] == LF;
    LengthInNumbers(|s|);
  }

  lemma LengthInNumbers(n: nat)
    requires n < 64
    ensures LengthChar(n) == 32 + n
  {
  }

  /** The characters of a line are printable, and four of them make up the number of the three bytes they stand
      for; bytes behind the end are zero. */
  lemma LineInNumbers(s: seq<byte>, g: nat)
    requires 1 <= g <= Groups(|s|)
    ensures var t := Line(s);
      && Printable(t[4 * g - 3]) && Printable(t[4 * g - 2]) && Printable(t[4 * g - 1]) && Printable(t[4 * g])
      && TextNumber(t[4 * g - 3], t[4 * g - 2], t[4 * g - 1], t[4 * g]) == DataNumber(At(s, 3 * g - 3), At(s, 3 * g - 2), At(s, 3 * g - 1))
  {
    GroupChars(s, g);
    WordInNumbers(At(s, 3 * g - 3), At(s, 3 * g - 2), At(s, 3 * g - 1));
  }

  /** The line of no bytes, which is sent for an empty block. */
  lemma EmptyLine()
    ensures Line([]) == [32, 13, 10]
  {
  }

  /** Decoding the first g groups of anything that starts with the line of s gives s padded with zeros. */
  lemma {:induction false} DecodesPadded(s: seq<byte>, text: seq<byte>, g: nat, i: nat)
    requires Line(s) <= text && i < 3 * g && g <= Groups(|s|)
    ensures Decoded(text, g)[i] == At(s, i)
  {
    if i < 3 * g - 3 {
      DecodesPadded(s, text, g - 1, i);
    } else {
      GroupInText(s, text, g);
      WordRoundTrip(At(s, 3 * g - 3), At(s, 3 * g - 2), At(s, 3 * g - 1));
    }
  }

  lemma PayloadOfLine(s: seq<byte>, text: seq<byte>)
    requires |s| < 64 && Line(s) <= text
    ensures WellFormed(text) && DecodeChar8(text[0]) == |s| && Payload(text) == s
  {
    LengthRoundTrip(|s|);
    assert text[0] == Line(s)[0] == LengthChar(|s|);
    var d := Decoded(text, Groups(|s|));
    forall i | 0 <= i < |s|
      ensures d[i] == s[i]
    {
      DecodesPadded(s, text, Groups(|s|), i);
    }
    assert d[..|s|] == s;
  }

  lemma {:induction false} ScanStops(text: seq<byte>, i: nat, stop: nat, limit: nat)
    requires i <= stop < limit <= |text|
    requires text[stop] == CR && forall k :: i <= k < stop ==> text[k] != CR && text[k] != LF
    ensures ScanFor(text, i, limit) == stop
    decreases stop - i
  {
    if i < stop {
      ScanStops(text, i + 1, stop, limit);
    }
  }

  /** No encoded character is a line end, and the terminator lies within the bound of the scan. */
  lemma ScanFindsTerminator(s: seq<byte>, text: seq<byte>)
    requires |s| <= MAX_LINE && Line(s) <= text && CALLER_BUFFER <= |text|
    ensures TextLength(text, |s|) == 4 * Groups(|s|)
  {
    var stop := 1 + 4 * Groups(|s|);
    assert text[stop] == Line(s)[stop] == CR;
    forall k | 1 <= k < stop
      ensures text[k] != CR && text[k] != LF
    {
      BodyGroup(s, Groups(|s|), (k - 1) / 4 + 1);
      assert text[k] == Line(s)[k] == Body(s, Groups(|s|))[k - 1];
    }
    ScanStops(text, 1, stop, ScanLimit(|s|));
  }

  lemma {:induction false} DecodedPrefix(line: seq<byte>, g: nat, h: nat)
    requires g <= h && 4 * h < |line|
    ensures Decoded(line, h)[..3 * g] == Decoded(line, g)
  {
    if g < h {
      DecodedPrefix(line, g, h - 1);
    }
  }

  /** Encoding a line of at most 45 bytes and decoding it, whatever follows it in the buffer, gives the
      bytes back, although the decoder runs on past the end of the line. */
  lemma RoundTrip(s: seq<byte>, text: seq<byte>)
    requires |s| <= MAX_LINE && Line(s) <= text && CALLER_BUFFER <= |text|
    ensures DecodeChar8(text[0]) == |s|
    ensures var g := Groups(TextLength(text, |s|));
      4 * g < |text| && |s| <= 3 * g && Decoded(text, g)[..|s|] == s
  {
    PayloadOfLine(s, text);
    ScanFindsTerminator(s, text);
    var g := Groups(TextLength(text, |s|));
    DecodedPrefix(text, Groups(|s|), g);
    assert Decoded(text, g)[..|s|] == Decoded(text, g)[..3 * Groups(|s|)][..|s|];
  }

  // ---------------------------------------------------------------- the source's operations

  lemma Terminated(head: seq<byte>)
    ensures head + [CR, LF, 0] == (head + [CR, LF]) + [0]
  {
  }

  /** uu_encode_line: the line of src with its terminating zero; the result is its length. */
  method EncodeLine(dest: array<byte>, src: seq<byte>) returns (length: nat)
    requires |src| < TEMP_SIZE && |Line(src)| < dest.Length
    modifies dest
    ensures length == |Line(src)| && dest[..length + 1] == Line(src) + [0]
  {
    var j := EncodeBody(dest, src);
    PutWord(dest, j, [CR, LF, 0]);
    Terminated(Head(src, Groups(|src|)));
    length := j + 2;
  }

  /** The length character and the groups, from a zero-filled copy of the source. */
  method EncodeBody(dest: array<byte>, src: seq<byte>) returns (j: nat)
    requires |src| < TEMP_SIZE && |Line(src)| < dest.Length
    modifies dest
    ensures j == 1 + 4 * Groups(|src|) && dest[..j] == Head(src, Groups(|src|))
  {
    var tmp := new byte[TEMP_SIZE](k => 0);
    Copy(tmp, src);
    dest[0] := LengthChar(|src|);
    j := EncodeGroups(dest, tmp, src);
  }

  /** The loop over the groups. */
  method EncodeGroups(dest: array<byte>, tmp: array<byte>, src: seq<byte>) returns (j: nat)
    requires dest != tmp && tmp.Length == TEMP_SIZE && |src| < TEMP_SIZE && 1 + 4 * Groups(|src|) <= dest.Length
    requires forall k :: 0 <= k < TEMP_SIZE ==> tmp[k] == At(src, k)
    requires dest[0] == LengthChar(|src|)
    modifies dest
    ensures j == 1 + 4 * Groups(|src|) && dest[..j] == Head(src, Groups(|src|))
  {
    ghost var g, groups := 0, Groups(|src|);
    assert 3 * groups - 3 < |src| <= 3 * groups;
    var i := 0;
    j := 1;
    while i < |src|
      invariant i == 3 * g && j == 1 + 4 * g && g <= groups
      invariant dest[..j] == Head(src, g)
    {
      HeadNext(src, g);
      assert tmp[i] == At(src, 3 * g) && tmp[i + 1] == At(src, 3 * g + 1) && tmp[i + 2] == At(src, 3 * g + 2);
      WriteWord24(dest, j, tmp, i);
      g := g + 1;
      i := i + 3;
      j := j + 4;
    }
  }

  /** uu_encode_word24. */
  method WriteWord24(dest: array<byte>, at: nat, src: array<byte>, i: nat)
    requires dest != src && at + 4 <= dest.Length && i + 3 <= src.Length
    modifies dest
    ensures dest[..at + 4] == old(dest[..at]) + EncodeWord24(src[i], src[i + 1], src[i + 2])
  {
    PutWord(dest, at, EncodeWord24(src[i], src[i + 1], src[i + 2]));
  }

  method Copy(tmp: array<byte>, src: seq<byte>)
    requires tmp.Length == TEMP_SIZE && |src| <= TEMP_SIZE
    requires forall k :: 0 <= k < TEMP_SIZE ==> tmp[k] == 0
    modifies tmp
    ensures forall k :: 0 <= k < TEMP_SIZE ==> tmp[k] == At(src, k)
  {
    for k := 0 to |src|
      invariant forall m :: 0 <= m < k ==> tmp[m] == src[m]
      invariant forall m :: k <= m < TEMP_SIZE ==> tmp[m] == 0
    {
      tmp[k] := src[k];
    }
  }

  method PutWord(dest: array<byte>, at: nat, word: seq<byte>)
    requires at + |word| <= dest.Length
    modifies dest
    ensures dest[..at + |word|] == old(dest[..at]) + word
    ensures forall k :: at + |word| <= k < dest.Length ==> dest[k] == old(dest[k])
  {
    for k := 0 to |word|
      invariant dest[..at + k] == old(dest[..at]) + word[..k]
      invariant forall m :: at + k <= m < dest.Length ==> dest[m] == old(dest[m])
    {
      dest[at + k] := word[k];
    }
  }

  /** uu_decode_line on buffers of the size its caller uses. For every text, every access stays inside
      them; the groups found are decoded and the rest of the first `bytes` bytes is cleared. */
  method DecodeLine(dest: array<byte>, text: seq<byte>, bytes: nat) returns (length: nat)
    requires |text| == CALLER_BUFFER && dest.Length == CALLER_BUFFER && bytes <= dest.Length
    modifies dest
    ensures length == if DecodeChar8(text[0]) > MAX_LINE then 0 else DecodeChar8(text[0])
    ensures DecodeChar8(text[0]) > MAX_LINE ==> dest[..] == old(dest[..])
    ensures DecodeChar8(text[0]) <= MAX_LINE ==>
      var g := Groups(TextLength(text, length));
      && dest[..3 * g] == Decoded(text, g)
      && forall k :: 3 * g <= k < dest.Length ==> dest[k] == if k < bytes then 0 else old(dest[k])
  {
    var lenCheck: nat := (text[0] as int - 32) % 64;
    if lenCheck > 45 {
      return 0;
    }
    var len := FindText(text, lenCheck);
    Clear(dest, bytes);
    DecodeWords(dest, text, len);
    length := lenCheck;
  }

  /** The scan for the end of the line. */
  method FindText(text: seq<byte>, lenCheck: nat) returns (len: nat)
    requires ScanLimit(lenCheck) <= |text|
    ensures len == TextLength(text, lenCheck)
  {
    len := 0;
    var i := 1;
    while i < lenCheck * 4 / 3 + 8
      invariant 1 <= i <= ScanLimit(lenCheck) && len == 0
      invariant ScanFor(text, 1, ScanLimit(lenCheck)) == ScanFor(text, i, ScanLimit(lenCheck))
    {
      if text[i] == CR || text[i] == LF {
        len := i - 1;
        break;
      }
      i := i + 1;
    }
  }

  /** The loop over the words, which steps three characters of text at a time. */
  method DecodeWords(dest: array<byte>, text: seq<byte>, len: nat)
    requires 4 * Groups(len) < |text| && 3 * Groups(len) <= dest.Length
    modifies dest
    ensures dest[..3 * Groups(len)] == Decoded(text, Groups(len))
    ensures forall k :: 3 * Groups(len) <= k < dest.Length ==> dest[k] == old(dest[k])
  {
    ghost var g, groups := 0, Groups(len);
    assert 3 * groups - 3 < len <= 3 * groups;
    var i, j := 0, 1;
    while i < len
      invariant i == 3 * g && j == 1 + 4 * g && g <= groups
      invariant dest[..i] == Decoded(text, g)
      invariant forall k :: i <= k < dest.Length ==> dest[k] == old(dest[k])
    {
      PutWord(dest, i, DecodeWord24(text[j], text[j + 1], text[j + 2], text[j + 3]));
      g := g + 1;
      i := i + 3;
      j := j + 4;
    }
  }

  method Clear(dest: array<byte>, n: nat)
    requires n <= dest.Length
    modifies dest
    ensures forall k :: 0 <= k < dest.Length ==> dest[k] == if k < n then 0 else old(dest[k])
  {
    for k := 0 to n
      invariant forall m :: 0 <= m < dest.Length ==> dest[m] == if m < k then 0 else old(dest[m])
    {
      dest[k] := 0;
    }
  }
}
