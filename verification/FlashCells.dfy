/** Flash memory as a string of bytes: erasing makes bytes 0xFF, programming can only clear bits. */
module FlashCells {
  import opened Bytes

  const ERASED: byte := 0xFF

  /** The bitwise and of the n lowest bits of two numbers. */
  function AndBits(a: nat, b: nat, n: nat): (r: nat)
    ensures r <= Ones(n)
  {
    if n == 0 then 0
    else (if a % 2 == 1 && b % 2 == 1 then 1 else 0) + 2 * AndBits(a / 2, b / 2, n - 1)
  }

  /** The number whose n lowest bits are set. */
  function Ones(n: nat): nat { if n == 0 then 0 else 1 + 2 * Ones(n - 1) }

  /** The bitwise and of two bytes. */
  function And8(a: byte, b: byte): byte {
    assert Ones(8) == 0xFF;
    AndBits(a, b, 8)
  }

  /** Each of the n lowest bits is set exactly when it is set in both numbers. */
  lemma {:induction false} AndIsBitwise(a: nat, b: nat, n: nat, k: nat)
    requires k < n
    ensures BitSet(AndBits(a, b, n), k) <==> BitSet(a, k) && BitSet(b, k)
  {
    var low := if a % 2 == 1 && b % 2 == 1 then 1 else 0;
    assert a == 2 * (a / 2) + a % 2 && b == 2 * (b / 2) + b % 2;
    if k == 0 {
      Halved(AndBits(a / 2, b / 2, n - 1), low, 0);
      Halved(a / 2, a % 2, 0);
      Halved(b / 2, b % 2, 0);
    } else {
      AndIsBitwise(a / 2, b / 2, n - 1, k - 1);
      Halved(AndBits(a / 2, b / 2, n - 1), low, k - 1);
      Halved(a / 2, a % 2, k - 1);
      Halved(b / 2, b % 2, k - 1);
    }
  }

  /** Programming can only clear bits: one is set afterwards exactly when it was set before and in the data. */
  lemma ProgrammingClears(memory: seq<byte>, at: nat, data: seq<byte>, i: nat, k: nat)
    requires at + |data| <= |memory| && at <= i < at + |data| && k < 8
    ensures BitSet(Burn(memory, at, data)[i], k) <==> BitSet(memory[i], k) && BitSet(data[i - at], k)
  {
    AndIsBitwise(memory[i], data[i - at], 8, k);
  }

  lemma {:induction false} OnesAreNeutral(b: nat, n: nat)
    requires b <= Ones(n)
    ensures AndBits(Ones(n), b, n) == b && AndBits(b, Ones(n), n) == b
  {
    if n > 0 {
      assert Ones(n) / 2 == Ones(n - 1);
      OnesAreNeutral(b / 2, n - 1);
    }
  }

  lemma ErasedIsNeutral(b: byte)
    ensures And8(ERASED, b) == b && And8(b, ERASED) == b
  {
    assert Ones(8) == 0xFF;
    OnesAreNeutral(b, 8);
  }

  function Blank(n: nat): (s: seq<byte>)
    ensures |s| == n && forall i :: 0 <= i < n ==> s[i] == ERASED
  {
    seq(n, i => ERASED)
  }

  ghost predicate IsBlank(s: seq<byte>) {
    forall i :: 0 <= i < |s| ==> s[i] == ERASED
  }

  /** Memory after data has been programmed at an address. */
  function Burn(memory: seq<byte>, at: nat, data: seq<byte>): (after: seq<byte>)
    requires at + |data| <= |memory|
    ensures |after| == |memory|
  {
    seq(|memory|, i requires 0 <= i < |memory| =>
      if at <= i < at + |data| then And8(memory[i], data[i - at]) else memory[i])
  }

  /** Memory after a range has been erased. */
  function Erase(memory: seq<byte>, from: nat, to: nat): (after: seq<byte>)
    ensures |after| == |memory|
  {
    seq(|memory|, i requires 0 <= i < |memory| => if from <= i < to then ERASED else memory[i])
  }

  /** The byte an image asks for at an address; past its end nothing is programmed. */
  function ImageAt(image: seq<byte>, i: nat): byte {
    if i < |image| then image[i] else ERASED
  }

  lemma BurnAt(memory: seq<byte>, at: nat, data: seq<byte>, i: nat)
    requires at + |data| <= |memory| && i < |memory|
    ensures !(at <= i < at + |data|) ==> Burn(memory, at, data)[i] == memory[i]
    ensures at <= i < at + |data| && memory[i] == ERASED ==> Burn(memory, at, data)[i] == data[i - at]
    ensures at <= i < at + |data| && data[i - at] == ERASED ==> Burn(memory, at, data)[i] == memory[i]
  {
    if at <= i < at + |data| {
      ErasedIsNeutral(memory[i]);
      ErasedIsNeutral(data[i - at]);
    }
  }

  /** Programming erased cells stores the data. */
  lemma BurnBlank(memory: seq<byte>, at: nat, data: seq<byte>)
    requires at + |data| <= |memory| && IsBlank(memory[at..at + |data|])
    ensures Burn(memory, at, data)[at..at + |data|] == data
  {
    forall i | 0 <= i < |data|
      ensures Burn(memory, at, data)[at + i] == data[i]
    {
      assert memory[at + i] == memory[at..at + |data|][i];
      BurnAt(memory, at, data, at + i);
    }
  }
}
