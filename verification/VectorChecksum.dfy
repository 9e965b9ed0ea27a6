/** The checksum an LPC boot loader expects in the vector table: the eight little-endian words of the first
    32 bytes must sum to zero modulo 2^32. */
module VectorChecksum {
  import opened Bytes
  import opened LpcDevices

  const TABLE_SIZE: nat := 32
  const SLOT_SIZE: nat := 4
  const WORD_SPAN: nat := 0x1_0000_0000

  /** The little-endian word at byte i. */
  function Word(s: seq<byte>, i: nat): nat
    requires i + 4 <= |s|
  {
    s[i] as int + 0x100 * s[i + 1] as int + 0x1_0000 * s[i + 2] as int + 0x100_0000 * s[i + 3] as int
  }

  /** What a word is: its lowest digit to base 256 is its first byte. */
  lemma WordDigits(s: seq<byte>, i: nat)
    requires i + 4 <= |s|
    ensures Word(s, i) % 0x100 == s[i] && Word(s, i) / 0x100 % 0x100 == s[i + 1]
    ensures Word(s, i) / 0x1_0000 % 0x100 == s[i + 2] && Word(s, i) / 0x100_0000 == s[i + 3]
  {
    var a: nat, b: nat, c: nat, d: nat := s[i], s[i + 1], s[i + 2], s[i + 3];
    assert Word(s, i) == a + 0x100 * (b + 0x100 * (c + 0x100 * d));
    Digit(b + 0x100 * (c + 0x100 * d), a);
    Digit(c + 0x100 * d, b);
    Digit(d, c);
  }

  lemma Digit(high: nat, low: nat)
    requires low < 0x100
    ensures (low + 0x100 * high) % 0x100 == low && (low + 0x100 * high) / 0x100 == high
  {
  }

  /** The weight of byte j in the sum that the boot loader takes over the vector table. */
  function Weight(j: nat): nat {
    if j % 4 == 0 then 1 else if j % 4 == 1 then 0x100 else if j % 4 == 2 then 0x1_0000 else 0x100_0000
  }

  function Weighed(s: seq<byte>, n: nat): nat
    requires n <= |s|
  {
    if n == 0 then 0 else Weighed(s, n - 1) + s[n - 1] * Weight(n - 1)
  }

  /** The sum of the words is the sum of the bytes by their weights. */
  lemma {:induction false} WordsWeigh(s: seq<byte>, n: nat)
    requires 4 * n <= |s|
    ensures WordSum(s, n) == Weighed(s, 4 * n)
  {
    if n > 0 {
      WordsWeigh(s, n - 1);
      var k := 4 * n - 4;
      assert Weight(k) == 1 && Weight(k + 1) == 0x100 && Weight(k + 2) == 0x1_0000 && Weight(k + 3) == 0x100_0000;
      assert Weighed(s, k + 1) == Weighed(s, k) + s[k];
      assert Weighed(s, k + 2) == Weighed(s, k + 1) + s[k + 1] as int * 0x100;
      assert Weighed(s, k + 3) == Weighed(s, k + 2) + s[k + 2] as int * 0x1_0000;
      assert Weighed(s, k + 4) == Weighed(s, k + 3) + s[k + 3] as int * 0x100_0000;
    }
  }

  /** The sum of the first n words. */
  function WordSum(s: seq<byte>, n: nat): nat
    requires 4 * n <= |s|
  {
    if n == 0 then 0 else WordSum(s, n - 1) + Word(s, 4 * n - 4)
  }

  /** The four low bytes of an integer, a negative one in two's complement. */
  function LowBytes(v: int): (b: seq<byte>)
    ensures |b| == SLOT_SIZE
  {
    [v % 0x100, (v / 0x100) % 0x100, (v / 0x1_0000) % 0x100, (v / 0x100_0000) % 0x100]
  }

  function PutSlot(s: seq<byte>, addr: nat, slot: seq<byte>): (t: seq<byte>)
    requires |slot| == SLOT_SIZE && addr + SLOT_SIZE <= |s|
    ensures |t| == |s|
    ensures forall i :: 0 <= i < |s| ==> t[i] == if addr <= i < addr + SLOT_SIZE then slot[i - addr] else s[i]
  {
    s[..addr] + slot + s[addr + SLOT_SIZE..]
  }

  /** An image with its checksum slot filled in. */
  function Patch(image: seq<byte>, addr: nat): (patched: seq<byte>)
    requires TABLE_SIZE <= |image| && addr + SLOT_SIZE <= TABLE_SIZE
    ensures |patched| == |image|
    ensures forall i :: 0 <= i < |image| && !(addr <= i < addr + SLOT_SIZE) ==> patched[i] == image[i]
  {
    var zeroed := PutSlot(image, addr, [0, 0, 0, 0]);
    PutSlot(image, addr, LowBytes(0 - WordSum(zeroed, 8)))
  }

  lemma WordOfLowBytes(v: int)
    ensures Word(LowBytes(v), 0) == v % WORD_SPAN
  {
    var a, b, c := v / 0x100, v / 0x1_0000, v / 0x100_0000;
    assert v == 0x100 * a + v % 0x100;
    assert b == a / 0x100 && a == 0x100 * b + a % 0x100;
    assert c == b / 0x100 && b == 0x100 * c + b % 0x100;
    assert c == 0x100 * (c / 0x100) + c % 0x100;
  }

  /** Filling an aligned slot replaces one word and leaves the others. */
  lemma {:induction false} SlotWord(s: seq<byte>, addr: nat, slot: seq<byte>, n: nat)
    requires |slot| == SLOT_SIZE && addr + SLOT_SIZE <= |s| && addr % 4 == 0 && 4 * n <= |s|
    ensures WordSum(PutSlot(s, addr, slot), n)
      == WordSum(PutSlot(s, addr, [0, 0, 0, 0]), n) + if addr / 4 < n then Word(slot, 0) else 0
  {
    if n > 0 {
      SlotWord(s, addr, slot, n - 1);
      OneWord(s, addr, slot, n - 1);
    }
  }

  lemma OneWord(s: seq<byte>, addr: nat, slot: seq<byte>, k: nat)
    requires |slot| == SLOT_SIZE && addr + SLOT_SIZE <= |s| && addr % 4 == 0 && 4 * k + 4 <= |s|
    ensures Word(PutSlot(s, addr, slot), 4 * (k + 1) - 4)
      == Word(PutSlot(s, addr, [0, 0, 0, 0]), 4 * (k + 1) - 4) + if addr / 4 == k then Word(slot, 0) else 0
  {
    var t, z, i := PutSlot(s, addr, slot), PutSlot(s, addr, [0, 0, 0, 0]), 4 * k;
    if i == addr {
      assert t[i] == slot[0] && t[i + 1] == slot[1] && t[i + 2] == slot[2] && t[i + 3] == slot[3];
    } else {
      assert i + 4 <= addr || addr + 4 <= i;
      assert t[i] == z[i] && t[i + 1] == z[i + 1] && t[i + 2] == z[i + 2] && t[i + 3] == z[i + 3];
    }
  }

  lemma NegationCancels(sum: int)
    ensures (sum + (0 - sum) % WORD_SPAN) % WORD_SPAN == 0
  {
  }

  /** The boot loader accepts a patched image. */
  lemma PatchedSumsToZero(image: seq<byte>, addr: nat)
    requires TABLE_SIZE <= |image| && addr + SLOT_SIZE <= TABLE_SIZE && addr % 4 == 0
    ensures WordSum(Patch(image, addr), 8) % WORD_SPAN == 0
    ensures Weighed(Patch(image, addr), TABLE_SIZE) % WORD_SPAN == 0
  {
    WordsWeigh(Patch(image, addr), 8);
    var sum: int := WordSum(PutSlot(image, addr, [0, 0, 0, 0]), 8);
    SlotWord(image, addr, LowBytes(0 - sum), 8);
    WordOfLowBytes(0 - sum);
    NegationCancels(sum);
  }

  /** Patching looks only at the bytes outside the slot, so patching again changes nothing. */
  lemma PatchIsIdempotent(image: seq<byte>, addr: nat)
    requires TABLE_SIZE <= |image| && addr + SLOT_SIZE <= TABLE_SIZE
    ensures Patch(Patch(image, addr), addr) == Patch(image, addr)
  {
    assert PutSlot(Patch(image, addr), addr, [0, 0, 0, 0]) == PutSlot(image, addr, [0, 0, 0, 0]);
  }

  /** The slots in the device table are aligned words of the vector table. */
  lemma SlotsInTable(dev: string)
    requires Search(dev, 0) != -1
    ensures var addr := DEVICES[Search(dev, 0)].checksumAddr; addr + SLOT_SIZE <= TABLE_SIZE && addr % 4 == 0
  {
  }

  /** LpcIsp::write_vector_checksum. */
  method WriteVectorChecksum(buffer: array<byte>, dev: string) returns (result: int)
    requires TABLE_SIZE <= buffer.Length
    modifies buffer
    ensures result == if Search(dev, 0) == -1 then -1 else 0
    ensures result == -1 ==> buffer[..] == old(buffer[..])
    ensures result == 0 ==> (SlotsInTable(dev); buffer[..] == Patch(old(buffer[..]), DEVICES[Search(dev, 0)].checksumAddr))
  {
    var addr := GetChecksumAddr(dev);
    if addr < 0 {
      return -1;
    }
    SlotsInTable(dev);
    ghost var image := buffer[..];
    FillSlot(buffer, addr, [0, 0, 0, 0]);
    var checksum := SumWords(buffer);
    checksum := 0 - checksum;
    FillSlot(buffer, addr, LowBytes(checksum));
    SlotRefilled(image, addr, [0, 0, 0, 0], LowBytes(checksum));
    result := 0;
  }

  lemma SlotRefilled(image: seq<byte>, addr: nat, first: seq<byte>, second: seq<byte>)
    requires |first| == |second| == SLOT_SIZE && addr + SLOT_SIZE <= |image|
    ensures PutSlot(PutSlot(image, addr, first), addr, second) == PutSlot(image, addr, second)
  {
  }

  /** The checksum loop over the first eight words. */
  method SumWords(buffer: array<byte>) returns (checksum: int)
    requires TABLE_SIZE <= buffer.Length
    ensures checksum == WordSum(buffer[..], 8)
  {
    checksum := 0;
    var i := 0;
    while i < TABLE_SIZE
      invariant 0 <= i <= TABLE_SIZE && i % 4 == 0
      invariant checksum == WordSum(buffer[..], i / 4)
    {
      checksum := checksum + buffer[i];
      checksum := checksum + 0x100 * buffer[i + 1] as int;
      checksum := checksum + 0x1_0000 * buffer[i + 2] as int;
      checksum := checksum + 0x100_0000 * buffer[i + 3] as int;
      i := i + 4;
    }
  }

  method FillSlot(buffer: array<byte>, addr: nat, slot: seq<byte>)
    requires |slot| == SLOT_SIZE && addr + SLOT_SIZE <= buffer.Length
    modifies buffer
    ensures buffer[..] == PutSlot(old(buffer[..]), addr, slot)
  {
    for i := 0 to SLOT_SIZE
      invariant forall k :: 0 <= k < buffer.Length ==>
        buffer[k] == if addr <= k < addr + i then slot[k - addr] else old(buffer[k])
    {
      buffer[addr + i] := slot[i];
    }
  }
}
