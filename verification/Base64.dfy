/** Base64 text (section 4 of RFC 4648) over buffers.

    The encoder works on whole groups of three bytes and so reads up to two bytes past the end of its data;
    those bytes reach the text. `Canonical` is the encoding of the RFC, which puts zero bits there.
 */
module Base64 {
  import opened Bytes

  type octet = bv8

  const PAD: octet := 0x3D

  function EncodeSix(value: octet): octet {
    var x := value & 0x3F;
    if x < 26 then 0x41 + x
    else if x < 52 then 0x61 + (x - 26)
    else if x < 62 then 0x30 + (x - 52)
    else if x == 62 then 0x2B
    else 0x2F
  }

  function DecodeEight(x: octet): octet {
    if 0x41 <= x <= 0x5A then x - 0x41
    else if 0x61 <= x <= 0x7A then x - 0x61 + 26
    else if 0x30 <= x <= 0x39 then x - 0x30 + 52
    else if x == 0x2B then 62
    else if x == 0x2F then 63
    else 0
  }

  /** The four groups of six bits of three bytes. */
  function Six0(a: octet): octet { (a >> 2) & 0x3F }

  function Six1(a: octet, b: octet): octet { ((a << 4) & 0x30) + ((b >> 4) & 0x0F) }

  function Six2(b: octet, c: octet): octet { ((b << 2) & 0x3C) + ((c >> 6) & 0x03) }

  function Six3(c: octet): octet { c & 0x3F }

  function EncodeGroup(a: octet, b: octet, c: octet): (g: seq<octet>)
    ensures |g| == 4
  {
    [EncodeSix(Six0(a)), EncodeSix(Six1(a, b)), EncodeSix(Six2(b, c)), EncodeSix(Six3(c))]
  }

  /** The three bytes that four sixes make up. */
  function JoinSixes(w: octet, x: octet, y: octet, z: octet): (g: seq<octet>)
    ensures |g| == 3
  {
    [(w << 2) | (x >> 4), (x << 4) | (y >> 2), (y << 6) | z]
  }

  function DecodeGroup(w: octet, x: octet, y: octet, z: octet): (g: seq<octet>)
    ensures |g| == 3
  {
    JoinSixes(DecodeEight(w), DecodeEight(x), DecodeEight(y), DecodeEight(z))
  }

  function Groups(n: nat): nat { (n + 2) / 3 }

  /** The characters of the first g groups of memory. */
  function Text(memory: seq<octet>, g: nat): (t: seq<octet>)
    requires 3 * g <= |memory|
    ensures |t| == 4 * g
  {
    if g == 0 then [] else Text(memory, g - 1) + EncodeGroup(memory[3 * g - 3], memory[3 * g - 2], memory[3 * g - 1])
  }

  /** How many characters of the text of n bytes are padding. */
  function Padding(n: nat): nat { (3 - n % 3) % 3 }

  function Padded(text: seq<octet>, n: nat): (t: seq<octet>)
    requires |text| == 4 * Groups(n)
    ensures |t| == |text|
  {
    text[..|text| - Padding(n)] + (if Padding(n) == 0 then [] else if Padding(n) == 1 then [PAD] else [PAD, PAD])
  }

  /** The text the encoder makes of n bytes at the start of memory. */
  function Encoded(memory: seq<octet>, n: nat): (t: seq<octet>)
    requires 3 * Groups(n) <= |memory|
    ensures |t| == 4 * Groups(n)
  {
    Padded(Text(memory, Groups(n)), n)
  }

  /** The encoding of RFC 4648: the data is followed by zero bits. */
  function Canonical(data: seq<octet>): seq<octet> {
    Encoded(data + [0, 0], |data|)
  }

  function Decoded(text: seq<octet>, g: nat): (d: seq<octet>)
    requires 4 * g <= |text|
    ensures |d| == 3 * g
  {
    if g == 0 then []
    else Decoded(text, g - 1) + DecodeGroup(text[4 * g - 4], text[4 * g - 3], text[4 * g - 2], text[4 * g - 1])
  }

  /** Base64::esize and Base64::dsize, in the machine's integers. */
  function ESize(n: nat): int { TruncDiv(TruncDiv(Wrap(n * 4 + 2), 3) + 3, 4) * 4 }

  function DSize(n: nat): int { TruncDiv(Wrap(n * 3 + 3), 4) }

  // ---------------------------------------------------------------- characters and groups

  lemma SixRoundTrip(x: octet)
    requires x < 64
    ensures DecodeEight(EncodeSix(x)) == x && EncodeSix(x) != PAD && EncodeSix(x) != 0
  {
  }

  lemma SixesAreSmall(a: octet, b: octet, c: octet)
    ensures Six0(a) < 64 && Six1(a, b) < 64 && Six2(b, c) < 64 && Six3(c) < 64
  {
  }

  lemma BitsRejoin(a: octet, b: octet, c: octet)
    ensures (Six0(a) << 2) | (Six1(a, b) >> 4) == a
    ensures (Six1(a, b) << 4) | (Six2(b, c) >> 2) == b
    ensures (Six2(b, c) << 6) | Six3(c) == c
  {
  }

  lemma SixesRejoin(a: octet, b: octet, c: octet)
    ensures JoinSixes(Six0(a), Six1(a, b), Six2(b, c), Six3(c)) == [a, b, c]
    ensures JoinSixes(Six0(a), Six1(a, b), Six2(b, c), 0)[..2] == [a, b]
    ensures JoinSixes(Six0(a), Six1(a, b), 0, 0)[0] == a
  {
    BitsRejoin(a, b, c);
  }

  /** What four encoded characters, or the first of them and padding, decode to. */
  lemma SixesDecoded(w: octet, x: octet, y: octet, z: octet)
    requires w < 64 && x < 64 && y < 64 && z < 64
    ensures DecodeGroup(EncodeSix(w), EncodeSix(x), EncodeSix(y), EncodeSix(z)) == JoinSixes(w, x, y, z)
    ensures DecodeGroup(EncodeSix(w), EncodeSix(x), EncodeSix(y), PAD) == JoinSixes(w, x, y, 0)
    ensures DecodeGroup(EncodeSix(w), EncodeSix(x), PAD, PAD) == JoinSixes(w, x, 0, 0)
  {
    SixRoundTrip(w);
    SixRoundTrip(x);
    SixRoundTrip(y);
    SixRoundTrip(z);
  }

  /** A group comes back whole, its first two bytes without the last character, and its first byte without
      the last two. */
  lemma GroupRoundTrip(a: octet, b: octet, c: octet)
    ensures var t := EncodeGroup(a, b, c);
      && DecodeGroup(t[0], t[1], t[2], t[3]) == [a, b, c]
      && DecodeGroup(t[0], t[1], t[2], PAD)[..2] == [a, b]
      && DecodeGroup(t[0], t[1], PAD, PAD)[0] == a
      && t[0] != 0 && t[1] != 0 && t[2] != 0 && t[3] != 0
  {
    SixesAreSmall(a, b, c);
    SixesDecoded(Six0(a), Six1(a, b), Six2(b, c), Six3(c));
    SixesRejoin(a, b, c);
    SixRoundTrip(Six0(a));
    SixRoundTrip(Six1(a, b));
    SixRoundTrip(Six2(b, c));
    SixRoundTrip(Six3(c));
  }

  lemma {:induction false} TextGroup(memory: seq<octet>, g: nat, h: nat)
    requires 3 * g <= |memory| && 1 <= h <= g
    ensures Text(memory, g)[4 * h - 4..4 * h] == EncodeGroup(memory[3 * h - 3], memory[3 * h - 2], memory[3 * h - 1])
  {
    if h < g {
      TextGroup(memory, g - 1, h);
      assert Text(memory, g)[4 * h - 4..4 * h] == Text(memory, g - 1)[4 * h - 4..4 * h];
    }
  }

  lemma {:induction false} DecodedGroup(text: seq<octet>, g: nat, h: nat)
    requires 4 * g <= |text| && 1 <= h <= g
    ensures Decoded(text, g)[3 * h - 3..3 * h] == DecodeGroup(text[4 * h - 4], text[4 * h - 3], text[4 * h - 2], text[4 * h - 1])
  {
    if h < g {
      DecodedGroup(text, g - 1, h);
      assert Decoded(text, g)[3 * h - 3..3 * h] == Decoded(text, g - 1)[3 * h - 3..3 * h];
    }
  }

  // ---------------------------------------------------------------- round trip

  /** Group h of an encoded text: whole, except that padding replaces the end of the last one. */
  lemma EncodedGroup(memory: seq<octet>, n: nat, h: nat)
    requires 3 * Groups(n) <= |memory| && 1 <= h <= Groups(n)
    ensures var t, e := Encoded(memory, n), EncodeGroup(memory[3 * h - 3], memory[3 * h - 2], memory[3 * h - 1]);
      && t[4 * h - 4] == e[0] && t[4 * h - 3] == e[1]
      && t[4 * h - 2] == (if h == Groups(n) && Padding(n) == 2 then PAD else e[2])
      && t[4 * h - 1] == (if h == Groups(n) && Padding(n) >= 1 then PAD else e[3])
  {
    var text := Text(memory, Groups(n));
    TextGroup(memory, Groups(n), h);
    var part := text[4 * h - 4..4 * h];
    assert part[0] == text[4 * h - 4] && part[1] == text[4 * h - 3] && part[2] == text[4 * h - 2] && part[3] == text[4 * h - 1];
  }

  lemma RestoredByte(memory: seq<octet>, n: nat, i: nat)
    requires 3 * Groups(n) <= |memory| && i < n
    ensures Decoded(Encoded(memory, n), Groups(n))[i] == memory[i]
  {
    var g, h := Groups(n), i / 3 + 1;
    var t := Encoded(memory, n);
    EncodedGroup(memory, n, h);
    DecodedGroup(t, g, h);
    GroupRoundTrip(memory[3 * h - 3], memory[3 * h - 2], memory[3 * h - 1]);
    var d, part := Decoded(t, g), Decoded(t, g)[3 * h - 3..3 * h];
    assert part[i - (3 * h - 3)] == d[i];
    assert h == g ==> i - (3 * h - 3) < 3 - Padding(n);
    assert part[..2][0] == part[0] && part[..2][1] == part[1];
  }

  /** Decoding an encoding restores the data, whatever lies behind it in memory. */
  lemma RoundTrip(memory: seq<octet>, n: nat)
    requires 3 * Groups(n) <= |memory|
    ensures n <= 3 * Groups(n) && Decoded(Encoded(memory, n), Groups(n))[..n] == memory[..n]
  {
    forall i | 0 <= i < n
      ensures Decoded(Encoded(memory, n), Groups(n))[i] == memory[i]
    {
      RestoredByte(memory, n, i);
    }
  }

  /** No character of a text is zero, so its length is where the terminator stands. */
  lemma NoZeros(memory: seq<octet>, n: nat, k: nat)
    requires 3 * Groups(n) <= |memory| && k < 4 * Groups(n)
    ensures Encoded(memory, n)[k] != 0
  {
    var h := k / 4 + 1;
    EncodedGroup(memory, n, h);
    GroupRoundTrip(memory[3 * h - 3], memory[3 * h - 2], memory[3 * h - 1]);
  }

  // ---------------------------------------------------------------- agreement with the RFC

  /** Table 1 of section 4 of RFC 4648: the character of each value from 0 to 63. */
  const ALPHABET: string := "ABCDEFGHIJKLMNOPQRSTUVWXYZ" + "abcdefghijklmnopqrstuvwxyz" + "0123456789+/"

  /** The character stands for this value in the table. */
  predicate Stands(c: octet, value: octet)
  {
    value < 64 && c as int == ALPHABET[value as int] as int
  }

  /** The value the table gives a character, or zero for one that is not in it. */
  ghost predicate Means(c: octet, value: octet) {
    Stands(c, value) || (value == 0 && forall v: octet :: !Stands(c, v))
  }

  /** Where a character lies, by value. */
  function Code(i: nat): int
    requires i < 64
  {
    if i < 26 then 'A' as int + i else if i < 52 then 'a' as int + i - 26
    else if i < 62 then '0' as int + i - 52 else if i == 62 then '+' as int else '/' as int
  }

  lemma TableCodes(i: nat)
    requires i < 64
    ensures ALPHABET[i] as int == Code(i)
  {
    if i < 26 {
      assert ALPHABET[i] == "ABCDEFGHIJKLMNOPQRSTUVWXYZ"[i];
    } else if i < 52 {
      assert ALPHABET[i] == "abcdefghijklmnopqrstuvwxyz"[i - 26];
    } else {
      assert ALPHABET[i] == "0123456789+/"[i - 52];
    }
  }

  lemma EncodedCodes(x: octet)
    requires x < 64
    ensures EncodeSix(x) as int == Code(x as int)
  {
  }

  /** The encoder's characters are those of the table. */
  lemma EncodesByTable(x: octet)
    requires x < 64
    ensures Stands(EncodeSix(x), x)
  {
    TableCodes(x as int);
    EncodedCodes(x);
  }

  /** The decoder knows the characters of the table, each by its value, and takes every other one for zero. */
  lemma DecodesByTable(c: octet)
    ensures DecodeEight(c) < 64
    ensures Means(c, DecodeEight(c))
  {
    if EncodeSix(DecodeEight(c)) == c {
      DecodedIsSmall(c);
      EncodesByTable(DecodeEight(c));
    } else {
      DecodedIsSmall(c);
      forall v: octet | v < 64
        ensures !Stands(c, v)
      {
        if Stands(c, v) {
          EncodesByTable(v);
          assert c as int == EncodeSix(v) as int;
          SixRoundTrip(v);
        }
      }
    }
  }

  lemma DecodedIsSmall(c: octet)
    ensures DecodeEight(c) < 64
    ensures EncodeSix(DecodeEight(c)) != c ==> DecodeEight(c) == 0
  {
  }

  /** The number that three bytes make up, and the number that four values of six bits make up, the first one the
      most significant. */
  function Number24(a: octet, b: octet, c: octet): bv32 {
    (a as bv32) * 0x1_0000 + (b as bv32) * 0x100 + (c as bv32)
  }

  function NumberOfSixes(p: octet, q: octet, r: octet, s: octet): bv32 {
    (p as bv32) * 0x4_0000 + (q as bv32) * 0x1000 + (r as bv32) * 0x40 + (s as bv32)
  }

  lemma SixesNumber(a: octet, b: octet, c: octet)
    ensures NumberOfSixes(Six0(a), Six1(a, b), Six2(b, c), Six3(c)) == Number24(a, b, c)
  {
  }

  /** The characters of a group stand for four values that make up the same number as its three bytes. */
  lemma GroupByTable(a: octet, b: octet, c: octet) returns (p: octet, q: octet, r: octet, s: octet)
    ensures var g := EncodeGroup(a, b, c); Stands(g[0], p) && Stands(g[1], q) && Stands(g[2], r) && Stands(g[3], s)
    ensures NumberOfSixes(p, q, r, s) == Number24(a, b, c)
  {
    p, q, r, s := Six0(a), Six1(a, b), Six2(b, c), Six3(c);
    SixesAreSmall(a, b, c);
    SixesNumber(a, b, c);
    EncodesByTable(p);
    EncodesByTable(q);
    EncodesByTable(r);
    EncodesByTable(s);
  }

  lemma JoinedNumber(w: octet, x: octet, y: octet, z: octet)
    requires w < 64 && x < 64 && y < 64 && z < 64
    ensures var g := JoinSixes(w, x, y, z); Number24(g[0], g[1], g[2]) == NumberOfSixes(w, x, y, z)
  {
  }

  /** Any four characters decode to the three bytes whose number their values make up. */
  lemma DecodedByTable(w: octet, x: octet, y: octet, z: octet) returns (p: octet, q: octet, r: octet, s: octet)
    ensures Means(w, p) && Means(x, q) && Means(y, r) && Means(z, s)
    ensures var g := DecodeGroup(w, x, y, z); Number24(g[0], g[1], g[2]) == NumberOfSixes(p, q, r, s)
  {
    p, q, r, s := DecodeEight(w), DecodeEight(x), DecodeEight(y), DecodeEight(z);
    DecodesByTable(w);
    DecodesByTable(x);
    DecodesByTable(y);
    DecodesByTable(z);
    JoinedNumber(p, q, r, s);
  }

  /** The byte at i of data that zeros follow. */
  function DataAt(data: seq<octet>, i: nat): octet { if i < |data| then data[i] else 0 }

  /** Group h of the canonical text of some data, by the table: its characters stand for values that make up the
      number of its three bytes, missing bytes being zero; one character of the last group is padding for every
      missing byte. */
  lemma CanonicalByTable(data: seq<octet>, h: nat) returns (p: octet, q: octet, r: octet, s: octet)
    requires 1 <= h <= Groups(|data|)
    ensures |Canonical(data)| == 4 * Groups(|data|)
    ensures var t, missing := Canonical(data), Max(3 * h - |data|, 0);
      && Stands(t[4 * h - 4], p) && Stands(t[4 * h - 3], q)
      && (if missing == 2 then t[4 * h - 2] == PAD else Stands(t[4 * h - 2], r))
      && (if missing >= 1 then t[4 * h - 1] == PAD else Stands(t[4 * h - 1], s))
    ensures NumberOfSixes(p, q, r, s) == Number24(DataAt(data, 3 * h - 3), DataAt(data, 3 * h - 2), DataAt(data, 3 * h - 1))
  {
    var memory := data + [0, 0];
    EncodedGroup(memory, |data|, h);
    p, q, r, s := GroupByTable(memory[3 * h - 3], memory[3 * h - 2], memory[3 * h - 1]);
  }

  /** The bits behind the data that reach the text. */
  predicate CleanTail(memory: seq<octet>, n: nat)
    requires 3 * Groups(n) <= |memory|
  {
    (n % 3 == 1 ==> memory[n] & 0xF0 == 0) && (n % 3 == 2 ==> memory[n] & 0xC0 == 0)
  }

  lemma SixesMatch(a: octet, b: octet, c: octet)
    ensures Six1(a, b) == Six1(a, 0) <==> b & 0xF0 == 0
    ensures Six2(b, c) == Six2(b, 0) <==> c & 0xC0 == 0
  {
  }

  lemma EncodeSixInjective(x: octet, y: octet)
    requires x < 64 && y < 64
    ensures EncodeSix(x) == EncodeSix(y) <==> x == y
  {
    SixRoundTrip(x);
    SixRoundTrip(y);
  }

  /** The characters that depend on the byte behind the data. */
  lemma LastGroupMatches(a: octet, b: octet, c: octet)
    ensures EncodeGroup(a, b, c)[1] == EncodeGroup(a, 0, 0)[1] <==> b & 0xF0 == 0
    ensures EncodeGroup(a, b, c)[2] == EncodeGroup(a, b, 0)[2] <==> c & 0xC0 == 0
  {
    SixesAreSmall(a, b, c);
    SixesAreSmall(a, 0, 0);
    SixesAreSmall(a, b, 0);
    SixesMatch(a, b, c);
    EncodeSixInjective(Six1(a, b), Six1(a, 0));
    EncodeSixInjective(Six2(b, c), Six2(b, 0));
  }

  /** The position of the one character that depends on the bytes behind the data, if there is one. */
  function TailPosition(n: nat): nat {
    if n % 3 == 1 then 4 * Groups(n) - 3 else if n % 3 == 2 then 4 * Groups(n) - 2 else 4 * Groups(n)
  }

  lemma FirstCharacters(a: octet, b: octet, c: octet)
    ensures EncodeGroup(a, b, c)[0] == EncodeGroup(a, 0, 0)[0]
    ensures EncodeGroup(a, b, c)[1] == EncodeGroup(a, b, 0)[1]
  {
  }

  lemma OtherCharacter(memory: seq<octet>, n: nat, k: nat)
    requires 3 * Groups(n) <= |memory| && k < 4 * Groups(n) && k != TailPosition(n)
    ensures Encoded(memory, n)[k] == Canonical(memory[..n])[k]
  {
    var data, h := memory[..n] + [0, 0], k / 4 + 1;
    EncodedGroup(memory, n, h);
    EncodedGroup(data, n, h);
    var a, b, c := memory[3 * h - 3], memory[3 * h - 2], memory[3 * h - 1];
    FirstCharacters(a, b, c);
    if h < Groups(n) || n % 3 == 0 {
      assert data[3 * h - 3] == a && data[3 * h - 2] == b && data[3 * h - 1] == c;
    } else if n % 3 == 1 {
      assert data[3 * h - 3] == a && data[3 * h - 2] == 0 && data[3 * h - 1] == 0;
    } else {
      assert data[3 * h - 3] == a && data[3 * h - 2] == b && data[3 * h - 1] == 0;
    }
  }

  /** The last group of the data with zeros behind it. */
  lemma LastGroupPadded(memory: seq<octet>, n: nat)
    requires 3 * Groups(n) <= |memory| && n % 3 != 0
    ensures var data, g := memory[..n] + [0, 0], Groups(n);
      && data[3 * g - 3] == memory[3 * g - 3] && data[3 * g - 1] == 0
      && (n % 3 == 1 ==> n == 3 * g - 2 && data[3 * g - 2] == 0)
      && (n % 3 == 2 ==> n == 3 * g - 1 && data[3 * g - 2] == memory[3 * g - 2])
  {
  }

  /** The tail character of a text and of its canonical form, as characters of their last groups. */
  lemma TailOfOne(memory: seq<octet>, n: nat)
    requires 3 * Groups(n) <= |memory| && n % 3 == 1
    ensures var g := Groups(n);
      && Encoded(memory, n)[TailPosition(n)] == EncodeGroup(memory[3 * g - 3], memory[3 * g - 2], memory[3 * g - 1])[1]
      && Canonical(memory[..n])[TailPosition(n)] == EncodeGroup(memory[3 * g - 3], 0, 0)[1]
  {
    LastGroupPadded(memory, n);
    EncodedGroup(memory, n, Groups(n));
    EncodedGroup(memory[..n] + [0, 0], n, Groups(n));
  }

  lemma TailOfTwo(memory: seq<octet>, n: nat)
    requires 3 * Groups(n) <= |memory| && n % 3 == 2
    ensures var g := Groups(n);
      && Encoded(memory, n)[TailPosition(n)] == EncodeGroup(memory[3 * g - 3], memory[3 * g - 2], memory[3 * g - 1])[2]
      && Canonical(memory[..n])[TailPosition(n)] == EncodeGroup(memory[3 * g - 3], memory[3 * g - 2], 0)[2]
  {
    LastGroupPadded(memory, n);
    EncodedGroup(memory, n, Groups(n));
    EncodedGroup(memory[..n] + [0, 0], n, Groups(n));
  }

  lemma TailCharacter(memory: seq<octet>, n: nat)
    requires 3 * Groups(n) <= |memory| && n % 3 != 0
    ensures Encoded(memory, n)[TailPosition(n)] == Canonical(memory[..n])[TailPosition(n)] <==> CleanTail(memory, n)
  {
    var g := Groups(n);
    LastGroupPadded(memory, n);
    LastGroupMatches(memory[3 * g - 3], memory[3 * g - 2], memory[3 * g - 1]);
    if n % 3 == 1 {
      TailOfOne(memory, n);
    } else {
      TailOfTwo(memory, n);
    }
  }

  lemma EqualIff(t: seq<octet>, c: seq<octet>, at: nat)
    requires |t| == |c| && forall k :: 0 <= k < |t| && k != at ==> t[k] == c[k]
    ensures t == c <==> at >= |t| || t[at] == c[at]
  {
  }

  /** The encoder produces the text of the RFC exactly when the bits it takes from behind the data are zero. */
  lemma CanonicalIffCleanTail(memory: seq<octet>, n: nat)
    requires 3 * Groups(n) <= |memory|
    ensures Encoded(memory, n) == Canonical(memory[..n]) <==> CleanTail(memory, n)
  {
    var t, c := Encoded(memory, n), Canonical(memory[..n]);
    forall k | 0 <= k < 4 * Groups(n) && k != TailPosition(n)
      ensures t[k] == c[k]
    {
      OtherCharacter(memory, n, k);
    }
    if n % 3 != 0 {
      TailCharacter(memory, n);
    }
    EqualIff(t, c, TailPosition(n));
  }

  // ---------------------------------------------------------------- sizes

  /** The largest sizes whose products the machine's integers hold. */
  const MAX_ENCODED: nat := 0x1FFF_FFFF
  const MAX_DECODED: nat := 715827881

  lemma WrapIsLess(v: nat)
    requires v > INT_MAX
    ensures Wrap(v) <= v - INT_SPAN
  {
  }

  /** esize is the length of the text exactly up to the size from which its product overflows. */
  lemma ESizeIsExact(n: nat)
    ensures ESize(n) == 4 * Groups(n) <==> n <= MAX_ENCODED
  {
    if n <= MAX_ENCODED {
      assert Wrap(n * 4 + 2) == n * 4 + 2;
      ExactESize(n / 3, n % 3);
    } else {
      ESizeTooSmall(n);
    }
  }

  lemma ExactESize(q: nat, r: nat)
    requires r < 3
    ensures (((3 * q + r) * 4 + 2) / 3 + 3) / 4 == (3 * q + r + 2) / 3
  {
    assert ((3 * q + r) * 4 + 2) / 3 == 4 * q + (4 * r + 2) / 3;
    assert (4 * q + (4 * r + 2) / 3 + 3) / 4 == q + ((4 * r + 2) / 3 + 3) / 4;
    assert (3 * q + r + 2) / 3 == q + (r + 2) / 3;
  }

  lemma ESizeTooSmall(n: nat)
    requires n > MAX_ENCODED
    ensures ESize(n) < 4 * Groups(n)
  {
    var v := Wrap(n * 4 + 2);
    var t := TruncDiv(v, 3) + 3;
    WrapIsLess(n * 4 + 2);
    TruncDivBound(v, 3, n * 4 + 2 - INT_SPAN);
    TruncDivBound(t, 4, t);
    assert 3 * Groups(n) >= n;
  }

  /** Division towards zero yields less than one more than the exact quotient. */
  lemma TruncDivBound(v: int, d: nat, w: int)
    requires d > 0 && v <= w
    ensures d * TruncDiv(v, d) < w + d
  {
  }

  /** What the decoder writes for m characters fits in the size it announces exactly when m leaves remainder
      0 or 3, as every encoded text does, and the product of the size does not overflow. */
  lemma DSizeSuffices(m: nat)
    ensures 3 * ((m + 3) / 4) <= DSize(m) <==> (m % 4 == 0 || m % 4 == 3) && m <= MAX_DECODED
  {
    if m > MAX_DECODED {
      WrapIsLess(m * 3 + 3);
      TruncDivBound(Wrap(m * 3 + 3), 4, m * 3 + 3 - INT_SPAN);
    } else {
      assert DSize(m) == (m * 3 + 3) / 4;
      ExactDSize(m / 4, m % 4);
    }
  }

  lemma ExactDSize(q: nat, r: nat)
    requires r < 4
    ensures 3 * ((4 * q + r + 3) / 4) <= ((4 * q + r) * 3 + 3) / 4 <==> r == 0 || r == 3
  {
    assert (4 * q + r + 3) / 4 == q + (r + 3) / 4;
    assert ((4 * q + r) * 3 + 3) / 4 == 3 * q + (3 * r + 3) / 4;
  }

  // ---------------------------------------------------------------- the source's operations

  method PutGroup(dest: array<octet>, at: nat, group: seq<octet>)
    requires at + |group| <= dest.Length
    modifies dest
    ensures dest[..at + |group|] == old(dest[..at]) + group
    ensures forall k :: at + |group| <= k < dest.Length ==> dest[k] == old(dest[k])
  {
    for j := 0 to |group|
      invariant dest[..at + j] == old(dest[..at]) + group[..j]
      invariant forall k :: at + j <= k < dest.Length ==> dest[k] == old(dest[k])
    {
      dest[at + j] := group[j];
    }
  }

  /** strlen: the position of the first zero. */
  method StrLen(text: array<octet>, ghost end: nat) returns (length: nat)
    requires end < text.Length && text[end] == 0 && forall k :: 0 <= k < end ==> text[k] != 0
    ensures length == end
  {
    length := 0;
    while text[length] != 0
      invariant length <= end
      decreases end - length
    {
      length := length + 1;
    }
  }

  /** The group loop of encode. */
  method EncodeGroups(dest: array<octet>, memory: seq<octet>, n: nat) returns (k: nat)
    requires 3 * Groups(n) <= |memory| && 4 * Groups(n) <= dest.Length
    modifies dest
    ensures k == 4 * Groups(n) && dest[..k] == Text(memory, Groups(n))
  {
    var i := 0;
    k := 0;
    ghost var g, groups := 0, Groups(n);
    assert 3 * groups - 3 < n <= 3 * groups;
    while i < n
      invariant i == 3 * g && k == 4 * g && g <= groups
      invariant dest[..k] == Text(memory, g)
    {
      PutGroup(dest, k, EncodeGroup(memory[i], memory[i + 1], memory[i + 2]));
      g := g + 1;
      i := i + 3;
      k := k + 4;
    }
  }

  /** Base64::encode: n bytes of memory become a zero-terminated text whose length is returned. */
  method Encode(dest: array<octet>, memory: seq<octet>, n: nat) returns (length: nat)
    requires 3 * Groups(n) <= |memory| && 4 * Groups(n) < dest.Length
    modifies dest
    ensures length == 4 * Groups(n) && (n <= MAX_ENCODED ==> length == ESize(n))
    ensures dest[..length] == Encoded(memory, n) && dest[length] == 0
  {
    var k := EncodeGroups(dest, memory, n);
    ghost var text := dest[..k];
    if n % 3 == 1 {
      dest[k - 2] := PAD;
      dest[k - 1] := PAD;
    } else if n % 3 == 2 {
      dest[k - 1] := PAD;
    }
    dest[k] := 0;
    assert dest[..k] == Padded(text, n);
    forall j | 0 <= j < k
      ensures dest[j] != 0
    {
      NoZeros(memory, n, j);
      assert dest[j] == dest[..k][j];
    }
    ESizeIsExact(n);
    length := StrLen(dest, k);
  }

  /** Base64::decode: three bytes for every four characters, and nothing behind them. */
  method Decode(dest: array<octet>, text: seq<octet>, n: nat) returns (ret: int)
    requires 4 * ((n + 3) / 4) <= |text| && 3 * ((n + 3) / 4) <= dest.Length
    modifies dest
    ensures ret == 0 && dest[..3 * ((n + 3) / 4)] == Decoded(text, (n + 3) / 4)
    ensures forall k :: 3 * ((n + 3) / 4) <= k < dest.Length ==> dest[k] == old(dest[k])
  {
    var i, j := 0, 0;
    ghost var g, groups := 0, (n + 3) / 4;
    assert 4 * groups - 4 < n <= 4 * groups;
    while j < n
      invariant i == 3 * g && j == 4 * g && g <= groups
      invariant dest[..i] == Decoded(text, g)
      invariant forall k :: i <= k < dest.Length ==> dest[k] == old(dest[k])
    {
      PutGroup(dest, i, DecodeGroup(text[j], text[j + 1], text[j + 2], text[j + 3]));
      g := g + 1;
      i := i + 3;
      j := j + 4;
    }
    ret := 0;
  }
}
