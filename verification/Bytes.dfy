/** Bytes as small integers, and a few facts about sequences that several components use. */
module Bytes {

  type byte = x: int | 0 <= x < 256

  const INT_MAX: int := 0x7FFF_FFFF

  /** A value of the machine's 32-bit signed integers. */
  predicate IsInt(v: int) { -INT_MAX - 1 <= v <= INT_MAX }

  const INT_SPAN: int := 0x1_0000_0000

  /** The 32-bit result of an operation whose exact result is v. */
  function Wrap(v: int): (r: int)
    ensures IsInt(r) && (IsInt(v) ==> r == v)
  {
    (v + INT_MAX + 1) % INT_SPAN - INT_MAX - 1
  }

  /** Integer division as the source's language does it: towards zero. */
  function TruncDiv(a: int, b: int): int
    requires b != 0
  {
    if a >= 0 && b > 0 then a / b
    else if a < 0 && b > 0 then -((-a) / b)
    else if a >= 0 then -(a / (-b))
    else (-a) / (-b)
  }

  datatype Option<T> = None | Some(value: T)

  function Repeat<T>(b: T, n: nat): (s: seq<T>)
    ensures |s| == n && forall i :: 0 <= i < n ==> s[i] == b
  {
    seq(n, i => b)
  }

  function Min(a: int, b: int): int { if a < b then a else b }

  function Max(a: int, b: int): int { if a < b then b else a }

  function Power2(k: nat): (p: nat)
    ensures p > 0
  {
    if k == 0 then 1 else 2 * Power2(k - 1)
  }

  lemma ConcatAssociates<T>(a: seq<T>, b: seq<T>, c: seq<T>)
    ensures a + (b + c) == (a + b) + c
  {
  }

  lemma PrefixGrows<T>(a: seq<T>, s: seq<T>, n: nat)
    requires n < |s|
    ensures a + s[..n + 1] == a + s[..n] + [s[n]]
  {
  }

  lemma Halves<T>(s: seq<T>, n: nat)
    requires n <= |s|
    ensures s[..n] + s[n..] == s
  {
  }

  lemma SliceOfSlice<T>(s: seq<T>, i: nat, j: nat)
    requires i + j <= |s|
    ensures s[i..][j..] == s[i + j..]
  {
  }

  lemma Below(m: nat, x: int, y: int)
    requires m > 0 && m * x < m * y
    ensures x < y
  {
  }

  /** Whether the bit of weight 2^k is set in a number. */
  predicate BitSet(n: nat, k: nat) { n / Power2(k) % 2 == 1 }

  lemma ExactQuotient(q: nat, r: nat, m: nat)
    requires r < m
    ensures (m * q + r) / m == q
  {
    var n := m * q + r;
    assert n == m * (n / m) + n % m;
    assert m * (q + 1) == m * q + m && m * (n / m + 1) == m * (n / m) + m;
    Below(m, q, n / m + 1);
    Below(m, n / m, q + 1);
  }

  /** The bits of a number are its parity and the bits of its half. */
  lemma Halved(half: nat, low: nat, k: nat)
    requires low < 2
    ensures BitSet(2 * half + low, 0) <==> low == 1
    ensures BitSet(2 * half + low, k + 1) <==> BitSet(half, k)
  {
    var p := Power2(k);
    var q, r := half / p, half % p;
    assert half == p * q + r;
    assert 2 * half + low == (2 * p) * q + (2 * r + low);
    ExactQuotient(q, 2 * r + low, 2 * p);
  }
}
