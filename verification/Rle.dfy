/** Run-length coding of byte strings and the chunked file writer built on it.

    An encoded string is a list of two-byte elements, a count followed by the byte it repeats.
    `Greedy` is the list the encoder aims at; the methods below are proved against it, and the
    lemmas say what that list means: it expands to the source, no shorter list does, and it can
    be produced in pieces of any size.
 */
module Rle {
  import opened Bytes

  datatype Element = Element(size: byte, data: byte)

  const ELEMENT_SIZE: nat := 2
  const MAX_RUN: nat := 255
  const FILE_BUFFER_SIZE: nat := 64

  // ---------------------------------------------------------------- specification

  /** The length reached when a run that already covers the first n bytes is extended. */
  function RunFrom(s: seq<byte>, n: nat): (r: nat)
    requires 1 <= n <= |s| && n <= MAX_RUN
    ensures n <= r <= |s| && r <= MAX_RUN
    decreases |s| - n
  {
    if n < MAX_RUN && n < |s| && s[n - 1] == s[n] then RunFrom(s, n + 1) else n
  }

  /** The length of the run of equal bytes at the front of s, never more than a count can hold. */
  function RunLength(s: seq<byte>): (r: nat)
    requires s != []
    ensures 1 <= r <= |s| && r <= MAX_RUN
  {
    RunFrom(s, 1)
  }

  ghost predicate AllEqual(s: seq<byte>, n: nat)
    requires n <= |s|
  {
    forall i :: 0 <= i < n ==> s[i] == s[0]
  }

  lemma {:induction false} RunFromFacts(s: seq<byte>, n: nat)
    requires 1 <= n <= |s| && n <= MAX_RUN && AllEqual(s, n)
    ensures var r := RunFrom(s, n);
      AllEqual(s, r) && (r == |s| || r == MAX_RUN || s[r] != s[0])
    decreases |s| - n
  {
    if n < MAX_RUN && n < |s| && s[n - 1] == s[n] {
      RunFromFacts(s, n + 1);
    }
  }

  /** A run is made of equal bytes, and it is as long as it can be. */
  lemma RunFacts(s: seq<byte>)
    requires s != []
    ensures var r := RunLength(s);
      AllEqual(s, r) && (r == |s| || r == MAX_RUN || s[r] != s[0])
  {
    RunFromFacts(s, 1);
  }

  /** A stretch of equal bytes at the front is covered by the run, up to the cap. */
  lemma RunCovers(s: seq<byte>, n: nat)
    requires 1 <= n <= |s| && n <= MAX_RUN && AllEqual(s, n)
    ensures n <= RunLength(s)
  {
    RunFacts(s);
  }

  function Greedy(s: seq<byte>): seq<Element> {
    if s == [] then [] else [Element(RunLength(s), s[0])] + Greedy(s[RunLength(s)..])
  }

  function Expand(es: seq<Element>): seq<byte> {
    if es == [] then [] else Repeat(es[0].data, es[0].size) + Expand(es[1..])
  }

  /** The bytes of a list of elements as they lie in memory. */
  function Serialize(es: seq<Element>): (s: seq<byte>)
    ensures |s| == ELEMENT_SIZE * |es|
  {
    if es == [] then [] else Serialize(es[..|es| - 1]) + [es[|es| - 1].size, es[|es| - 1].data]
  }

  /** The elements that a byte string holds; a trailing odd byte belongs to none. */
  function Elements(s: seq<byte>): (es: seq<Element>)
    ensures |es| == |s| / ELEMENT_SIZE
  {
    seq(|s| / ELEMENT_SIZE, k requires 0 <= k < |s| / 2 => Element(s[2 * k], s[2 * k + 1]))
  }

  ghost predicate Counts(es: seq<Element>) {
    forall e :: e in es ==> 1 <= e.size
  }

  /** How many leading elements expand into at most room bytes. */
  function Fitting(es: seq<Element>, room: int): (n: nat)
    ensures n <= |es|
  {
    if es == [] || es[0].size > room then 0 else 1 + Fitting(es[1..], room - es[0].size)
  }

  // ---------------------------------------------------------------- properties of the specification

  lemma {:induction false} ExpandConcat(a: seq<Element>, b: seq<Element>)
    ensures Expand(a + b) == Expand(a) + Expand(b)
  {
    if a == [] {
      assert a + b == b;
    } else {
      var first, rest := Repeat(a[0].data, a[0].size), a[1..];
      ExpandConcat(rest, b);
      assert (a + b)[0] == a[0] && (a + b)[1..] == rest + b;
      ConcatAssociates(first, Expand(rest), Expand(b));
    }
  }

  lemma ExpandUnfolds(es: seq<Element>)
    requires es != []
    ensures |Expand(es)| == es[0].size + |Expand(es[1..])|
  {
  }

  lemma ExpandSingle(e: Element)
    ensures Expand([e]) == Repeat(e.data, e.size)
  {
    assert Expand([e]) == Repeat(e.data, e.size) + Expand([e][1..]);
  }

  lemma GreedyUnfolds(s: seq<byte>)
    requires s != []
    ensures var r := RunLength(s);
      && Greedy(s)[0] == Element(r, s[0]) && Greedy(s)[1..] == Greedy(s[r..]) && |Greedy(s)| == 1 + |Greedy(s[r..])|
  {
  }

  /** The greedy list stands for exactly its source, and every count in it is usable. */
  lemma {:induction false} GreedyExpands(s: seq<byte>)
    ensures Expand(Greedy(s)) == s && Counts(Greedy(s))
  {
    if s != [] {
      var r := RunLength(s);
      RunFacts(s);
      GreedyExpands(s[r..]);
      GreedyUnfolds(s);
      assert Repeat(s[0], r) == s[..r];
      Halves(s, r);
    }
  }

  /** Dropping bytes from the front never makes the greedy list longer. */
  lemma {:induction false} GreedySuffix(s: seq<byte>, j: nat)
    requires j <= |s|
    ensures |Greedy(s[j..])| <= |Greedy(s)|
    decreases |s|
  {
    if j == 0 {
      assert s[j..] == s;
    } else {
      var r := RunLength(s);
      GreedyUnfolds(s);
      if r <= j {
        GreedySuffix(s[r..], j - r);
        SliceOfSlice(s, r, j - r);
      } else {
        var t := s[j..];
        var q := RunLength(t);
        RunAfterDrop(s, j);
        GreedyUnfolds(t);
        GreedySuffix(s[r..], q + j - r);
        assert t[q..] == s[r..][q + j - r..] by {
          SliceOfSlice(s, r, q + j - r);
          SliceOfSlice(s, j, q);
        }
      }
    }
  }

  /** A run entered in the middle ends no earlier than the capped run that was entered. */
  lemma RunAfterDrop(s: seq<byte>, j: nat)
    requires s != [] && j < RunLength(s)
    ensures RunLength(s) <= j + RunLength(s[j..])
  {
    var r, t := RunLength(s), s[j..];
    RunFacts(s);
    assert forall i :: 0 <= i < r - j ==> t[i] == s[j + i];
    RunCovers(t, r - j);
  }

  lemma FirstElementFitsRun(s: seq<byte>, e: Element, rest: seq<byte>)
    requires 1 <= e.size && s == Repeat(e.data, e.size) + rest
    ensures s[e.size..] == rest && e.size <= RunLength(s)
  {
    var run := Repeat(e.data, e.size);
    assert forall i :: 0 <= i < e.size ==> s[i] == run[i];
    RunCovers(s, e.size);
  }

  lemma FirstElement(s: seq<byte>, es: seq<Element>)
    requires es != [] && Counts(es) && Expand(es) == s
    ensures s != [] && es[0].size <= RunLength(s) && s[es[0].size..] == Expand(es[1..]) && Counts(es[1..])
  {
    FirstElementFitsRun(s, es[0], Expand(es[1..]));
  }

  /** Taking off part of the first run saves at most one element. */
  lemma RunSavesOne(s: seq<byte>, c: nat)
    requires s != [] && c <= RunLength(s)
    ensures |Greedy(s)| <= 1 + |Greedy(s[c..])|
  {
    var r := RunLength(s);
    assert |Greedy(s)| == 1 + |Greedy(s[r..])| by { GreedyUnfolds(s); }
    assert s[c..][r - c..] == s[r..] by { SliceOfSlice(s, c, r - c); }
    GreedySuffix(s[c..], r - c);
  }

  /** Optimality: whatever list of usable elements expands to s, the greedy list is not longer. */
  lemma {:induction false} GreedyIsShortest(s: seq<byte>, es: seq<Element>)
    requires Counts(es) && Expand(es) == s
    ensures |Greedy(s)| <= |es|
    decreases |es|
  {
    if es != [] {
      FirstElement(s, es);
      GreedyIsShortest(s[es[0].size..], es[1..]);
      RunSavesOne(s, es[0].size);
    }
  }

  /** The greedy list can be cut anywhere: its first n elements stand for a prefix of the source, and
      encoding what follows that prefix yields the remaining elements. */
  lemma {:induction false} GreedyCut(s: seq<byte>, n: nat)
    requires n <= |Greedy(s)|
    ensures var used := |Expand(Greedy(s)[..n])|;
      && used <= |s|
      && Expand(Greedy(s)[..n]) == s[..used]
      && Greedy(s[used..]) == Greedy(s)[n..]
  {
    var g := Greedy(s);
    var used := |Expand(g[..n])|;
    GreedyExpands(s);
    ExpandConcat(g[..n], g[n..]);
    assert g[..n] + g[n..] == g;
    assert s[used..] == Expand(g[n..]);
    GreedyTail(s, n);
  }

  /** The first n elements of the greedy list of a string, one run at a time. */
  lemma FirstRun(s: seq<byte>, n: nat)
    requires s != [] && 1 <= n <= |Greedy(s)|
    ensures var r := RunLength(s); var rest := Greedy(s[r..]);
      n - 1 <= |rest| && Greedy(s)[n..] == rest[n - 1..] && |Expand(Greedy(s)[..n])| == r + |Expand(rest[..n - 1])|
  {
    var g, rest := Greedy(s), Greedy(s[RunLength(s)..]);
    GreedyUnfolds(s);
    assert g[1..] == rest;
    assert g[..n][1..] == rest[..n - 1] && g[n..] == rest[n - 1..];
    ExpandUnfolds(g[..n]);
  }

  lemma {:induction false} GreedyTail(s: seq<byte>, n: nat)
    requires n <= |Greedy(s)|
    requires |Expand(Greedy(s)[..n])| <= |s|
    ensures Greedy(s[|Expand(Greedy(s)[..n])|..]) == Greedy(s)[n..]
    decreases n
  {
    if n == 0 {
      assert s[0..] == s;
    } else {
      var r := RunLength(s);
      FirstRun(s, n);
      GreedyTail(s[r..], n - 1);
      SliceOfSlice(s, r, |Expand(Greedy(s[r..])[..n - 1])|);
    }
  }

  lemma {:induction false} SerializedAt(es: seq<Element>, k: nat)
    requires k < |es|
    ensures Serialize(es)[2 * k] == es[k].size && Serialize(es)[2 * k + 1] == es[k].data
  {
    if k < |es| - 1 {
      SerializedAt(es[..|es| - 1], k);
    }
  }

  lemma ElementAt(es: seq<Element>, memory: seq<byte>, k: nat)
    requires Serialize(es) <= memory && k < |es|
    ensures 2 * k + 1 < |memory| && memory[2 * k] == es[k].size && memory[2 * k + 1] == es[k].data
  {
    SerializedAt(es, k);
    var t := Serialize(es);
    assert memory[..|t|] == t;
    assert memory[2 * k] == t[2 * k] && memory[2 * k + 1] == t[2 * k + 1];
  }

  lemma ElementsAre(es: seq<Element>, memory: seq<byte>)
    requires ELEMENT_SIZE * |es| <= |memory|
    requires forall k :: 0 <= k < |es| ==> es[k] == Element(memory[2 * k], memory[2 * k + 1])
    ensures |es| <= |Elements(memory)| && Elements(memory)[..|es|] == es
  {
  }

  lemma ElementsOfSerialized(es: seq<Element>, memory: seq<byte>)
    requires Serialize(es) <= memory
    ensures |es| <= |Elements(memory)| && Elements(memory)[..|es|] == es
  {
    assert |Serialize(es)| <= |memory|;
    forall k | 0 <= k < |es|
      ensures 2 * k + 1 < |memory| && es[k] == Element(memory[2 * k], memory[2 * k + 1])
    {
      ElementAt(es, memory, k);
    }
    ElementsAre(es, memory);
  }

  lemma {:induction false} SerializeConcat(a: seq<Element>, b: seq<Element>)
    ensures Serialize(a + b) == Serialize(a) + Serialize(b)
  {
    if b == [] {
      assert a + b == a;
    } else {
      var last := |b| - 1;
      SerializeConcat(a, b[..last]);
      assert (a + b)[..|a| + last] == a + b[..last];
    }
  }

  lemma {:induction false} AllFit(es: seq<Element>, room: int)
    requires |Expand(es)| <= room
    ensures Fitting(es, room) == |es|
  {
    if es != [] {
      AllFit(es[1..], room - es[0].size);
    }
  }

  /** Round trip through memory: decoding the bytes of an encoding, whatever follows them and with room for the
      data, restores it. */
  lemma RoundTrip(s: seq<byte>, memory: seq<byte>, room: int)
    requires |s| <= room && Serialize(Greedy(s)) <= memory
    ensures |Greedy(s)| <= |Elements(memory)|
    ensures var es := Elements(memory)[..|Greedy(s)|];
      Fitting(es, room) == |es| && Expand(es) == s
  {
    GreedyExpands(s);
    ElementsOfSerialized(Greedy(s), memory);
    AllFit(Greedy(s), room);
  }

  /** Whatever room an encoder had, its output decodes to the part of the source it reported as processed. */
  lemma CappedOutputDecodes(s: seq<byte>, destSize: int, memory: seq<byte>, room: int)
    requires |Expand(Greedy(s)[..EncodeCount(s, destSize)])| <= room
    requires Serialize(Greedy(s)[..EncodeCount(s, destSize)]) <= memory
    ensures EncodeCount(s, destSize) <= |Elements(memory)|
    ensures var es := Elements(memory)[..EncodeCount(s, destSize)];
      Fitting(es, room) == |es| && |Expand(es)| <= |s| && Expand(es) == s[..|Expand(es)|]
  {
    var n := EncodeCount(s, destSize);
    ElementsOfSerialized(Greedy(s)[..n], memory);
    GreedyCut(s, n);
    AllFit(Greedy(s)[..n], room);
  }

  lemma {:induction false} FittingBounds(es: seq<Element>, room: int)
    requires 0 <= room
    ensures |Expand(es[..Fitting(es, room)])| <= room
    ensures Fitting(es, room) < |es| ==> |Expand(es[..Fitting(es, room) + 1])| > room
  {
    var n := Fitting(es, room);
    if es == [] {
    } else if es[0].size > room {
      assert es[..1] == [es[0]];
      ExpandSingle(es[0]);
    } else {
      FittingBounds(es[1..], room - es[0].size);
      assert es[..n][1..] == es[1..][..n - 1];
      if n < |es| { assert es[..n + 1][1..] == es[1..][..n]; }
    }
  }

  // ---------------------------------------------------------------- the source's operations

  /** done is what the encoder has emitted once it has passed the first at source bytes. */
  ghost predicate Emitted(src: seq<byte>, done: seq<Element>, at: nat)
    requires at <= |src|
  {
    Greedy(src) == done + Greedy(src[at..]) && at == |Expand(done)|
  }

  lemma EmitNext(src: seq<byte>, done: seq<Element>, at: nat)
    requires at < |src| && Emitted(src, done, at)
    ensures var e := Element(RunLength(src[at..]), src[at]);
      && at + e.size <= |src|
      && Emitted(src, done + [e], at + e.size)
      && Serialize(done + [e]) == Serialize(done) + [e.size, e.data]
  {
    var t := src[at..];
    var e := Element(RunLength(t), src[at]);
    ExpandConcat(done, [e]);
    ExpandSingle(e);
    assert t[e.size..] == src[at + e.size..];
    assert (done + [e])[..|done|] == done;
    assert done + ([e] + Greedy(t[e.size..])) == (done + [e]) + Greedy(t[e.size..]);
  }

  /** The number of elements the encoder writes: all of them, or as many whole ones as there is room for. */
  function EncodeCount(src: seq<byte>, destSize: int): (n: nat)
    ensures n <= |Greedy(src)|
  {
    Min(|Greedy(src)|, if destSize < 0 then 0 else destSize / ELEMENT_SIZE)
  }

  lemma EmittedPrefix(src: seq<byte>, done: seq<Element>, at: nat)
    requires at <= |src| && Emitted(src, done, at)
    ensures |done| <= |Greedy(src)| && Greedy(src)[..|done|] == done
    ensures (at == |src|) == (|done| == |Greedy(src)|)
    ensures at == |src| ==> Greedy(src) == done
  {
    if at == |src| {
      assert Greedy(src[at..]) == [];
    }
  }

  lemma EmittedCount(src: seq<byte>, done: seq<Element>, at: nat, destSize: int)
    requires at <= |src| && Emitted(src, done, at)
    requires at < |src| ==> ELEMENT_SIZE * |done| + ELEMENT_SIZE > destSize
    requires done == [] || ELEMENT_SIZE * |done| <= destSize
    ensures |done| == EncodeCount(src, destSize) && done == Greedy(src)[..|done|]
  {
    EmittedPrefix(src, done, at);
  }

  /** The inner loop that Rle::size and Rle::encode share: the length of the run that starts at from. */
  method ScanRun(src: seq<byte>, from: nat) returns (size: nat)
    requires from < |src|
    ensures size == RunLength(src[from..])
  {
    ghost var t := src[from..];
    var bp := from + 1;
    size := 1;
    while size != MAX_RUN && bp < |src| && src[bp - 1] == src[bp]
      invariant 1 <= size <= |t| && size <= MAX_RUN && bp == from + size
      invariant RunFrom(t, size) == RunLength(t)
    {
      size := size + 1;
      bp := bp + 1;
    }
  }

  /** Rle::size: the number of bytes an encoding with enough room takes. */
  method Size(src: seq<byte>) returns (size: int)
    requires src != []
    ensures size == |Serialize(Greedy(src))|
  {
    size := 0;
    var bp := 0;
    ghost var done: seq<Element> := [];
    assert src[0..] == src;
    var more := true;
    while more
      invariant 0 <= bp <= |src| && more == (bp < |src|)
      invariant Emitted(src, done, bp)
      invariant size == |Serialize(done)|
      decreases |src| - bp
    {
      EmitNext(src, done, bp);
      var run := ScanRun(src, bp);
      done := done + [Element(run, src[bp])];
      bp := bp + run;
      size := size + ELEMENT_SIZE;
      more := bp < |src|;
    }
    EmittedPrefix(src, done, bp);
  }

  method PutElement(dest: array<byte>, at: nat, size: byte, data: byte)
    requires at + ELEMENT_SIZE <= dest.Length
    modifies dest
    ensures dest[..at + ELEMENT_SIZE] == old(dest[..at]) + [size, data]
    ensures forall i :: at + ELEMENT_SIZE <= i < dest.Length ==> dest[i] == old(dest[i])
  {
    dest[at] := size;
    dest[at + 1] := data;
  }

  /** Rle::encode: writes as many whole elements as fit and reports the source bytes they stand for. */
  method Encode(dest: array<byte>, destSize: int, src: seq<byte>) returns (processed: int, outSize: int)
    requires src != [] && destSize <= dest.Length
    modifies dest
    ensures var n := EncodeCount(src, destSize);
      && outSize == ELEMENT_SIZE * n
      && dest[..outSize] == Serialize(Greedy(src)[..n])
      && processed == |Expand(Greedy(src)[..n])|
    ensures forall i :: outSize <= i < dest.Length ==> dest[i] == old(dest[i])
  {
    processed, outSize := 0, 0;
    ghost var done: seq<Element> := [];
    assert src[0..] == src;
    while true
      invariant 0 <= processed < |src| && Emitted(src, done, processed)
      invariant outSize == ELEMENT_SIZE * |done| && outSize <= dest.Length
      invariant outSize == 0 || outSize <= destSize
      invariant dest[..outSize] == Serialize(done)
      invariant forall i :: outSize <= i < dest.Length ==> dest[i] == old(dest[i])
      decreases |src| - processed
    {
      if outSize + ELEMENT_SIZE > destSize { break; }
      EmitNext(src, done, processed);
      var size := ScanRun(src, processed);
      var value := src[processed];
      processed := processed + size;
      PutElement(dest, outSize, size, value);
      done := done + [Element(size, value)];
      outSize := outSize + ELEMENT_SIZE;
      if !(processed < |src|) { break; }
    }
    EmittedCount(src, done, processed, destSize);
  }

  /** Rle::decode: expands the longest prefix of whole elements that fits in the destination. The source is
      taken in whole elements: an odd size reads one byte of the memory behind it. */
  method Decode(dest: array<byte>, destSize: int, memory: seq<byte>, srcSize: nat) returns (processed: int, outSize: int)
    requires (srcSize + 1) / 2 * ELEMENT_SIZE <= |memory| && 0 <= destSize <= dest.Length
    modifies dest
    ensures var es := Elements(memory)[..(srcSize + 1) / 2];
      var n := Fitting(es, destSize);
      && processed == ELEMENT_SIZE * n
      && outSize == |Expand(es[..n])| <= destSize
      && dest[..outSize] == Expand(es[..n])
    ensures forall i :: outSize <= i < dest.Length ==> dest[i] == old(dest[i])
  {
    ghost var es := Elements(memory)[..(srcSize + 1) / 2];
    ghost var k := 0;
    processed, outSize := 0, 0;
    var room := true;
    while processed < srcSize && room
      invariant 0 <= k <= |es| && processed == ELEMENT_SIZE * k
      invariant 0 <= outSize <= destSize
      invariant Fits(es, destSize, k, outSize)
      invariant !room ==> k < |es| && outSize + es[k].size > destSize
      invariant dest[..outSize] == Expand(es[..k])
      invariant forall i :: outSize <= i < dest.Length ==> dest[i] == old(dest[i])
      decreases srcSize - processed, room
    {
      var size, data := memory[processed], memory[processed + 1];
      assert es[k] == Element(size, data);
      if outSize + size <= destSize {
        Fill(dest, outSize, data, size);
        FitOneMore(es, destSize, k, outSize);
        outSize := outSize + size;
        k := k + 1;
        processed := processed + ELEMENT_SIZE;
      } else {
        room := false;
      }
    }
    FitsAll(es, destSize, k, outSize);
  }

  /** The first k elements take up used bytes, and whatever fits after them fits from the start. */
  ghost predicate Fits(es: seq<Element>, room: int, k: nat, used: nat)
    requires k <= |es|
  {
    Fitting(es, room) == k + Fitting(es[k..], room - used) && |Expand(es[..k])| == used
  }

  lemma FitOneMore(es: seq<Element>, room: int, k: nat, used: nat)
    requires k < |es| && Fits(es, room, k, used) && used + es[k].size <= room
    ensures Fits(es, room, k + 1, used + es[k].size)
    ensures Expand(es[..k + 1]) == Expand(es[..k]) + Repeat(es[k].data, es[k].size)
  {
    assert es[k..][1..] == es[k + 1..];
    assert es[..k + 1] == es[..k] + [es[k]];
    ExpandConcat(es[..k], [es[k]]);
    ExpandSingle(es[k]);
  }

  lemma FitsAll(es: seq<Element>, room: int, k: nat, used: nat)
    requires k <= |es| && Fits(es, room, k, used)
    requires k < |es| ==> used + es[k].size > room
    ensures Fitting(es, room) == k
  {
  }

  /** memset on a window of an array. */
  method Fill(a: array<byte>, at: nat, value: byte, n: nat)
    requires at + n <= a.Length
    modifies a
    ensures a[..at + n] == old(a[..at]) + Repeat(value, n)
    ensures forall i :: at + n <= i < a.Length ==> a[i] == old(a[i])
  {
    for k := 0 to n
      invariant a[..at + k] == old(a[..at]) + Repeat(value, k)
      invariant forall i :: at + k <= i < a.Length ==> a[i] == old(a[i])
    {
      a[at + k] := value;
    }
  }

  /** RleFile: encodes through a 64-byte buffer and appends each full buffer to the file. */
  class RleFile {
    const buffer: array<byte>
    var file: seq<byte>

    ghost predicate Valid() {
      buffer.Length == FILE_BUFFER_SIZE
    }

    constructor ()
      ensures Valid() && fresh(buffer) && file == []
    {
      buffer := new byte[FILE_BUFFER_SIZE];
      file := [];
    }

    /** What reaches the file is the encoding of the whole input, no matter where the buffer cut it,
        and every input byte is consumed. */
    method Write(src: seq<byte>) returns (written: int)
      requires Valid() && src != []
      modifies this`file, buffer
      ensures written == |src|
      ensures file == old(file) + Serialize(Greedy(src))
    {
      written := 0;
      ghost var done: seq<Element> := [];
      assert src[0..] == src;
      var more := true;
      while more
        invariant 0 <= written <= |src| && more == (written < |src|)
        invariant Emitted(src, done, written)
        invariant file == old(file) + Serialize(done)
        decreases |src| - written
      {
        ghost var es := Greedy(src[written..])[..EncodeCount(src[written..], FILE_BUFFER_SIZE)];
        EmitMany(src, done, written, |es|);
        var ret, destSize := Encode(buffer, FILE_BUFFER_SIZE, src[written..]);
        ConcatAssociates(old(file), Serialize(done), Serialize(es));
        file := file + buffer[..destSize];
        done := done + es;
        written := written + ret;
        more := ret > 0 && written < |src|;
      }
      EmittedPrefix(src, done, written);
    }
  }

  /** One call of Encode inside the writer: n whole elements are emitted, and at least one source byte is
      consumed because one element always fits in the buffer. */
  lemma EmitMany(src: seq<byte>, done: seq<Element>, at: nat, n: nat)
    requires at < |src| && Emitted(src, done, at)
    requires n == EncodeCount(src[at..], FILE_BUFFER_SIZE)
    ensures var es := Greedy(src[at..])[..n];
      && 1 <= |Expand(es)| && at + |Expand(es)| <= |src|
      && Emitted(src, done + es, at + |Expand(es)|)
      && Serialize(done + es) == Serialize(done) + Serialize(es)
  {
    var t := src[at..];
    var es, rest := Greedy(t)[..n], Greedy(t)[n..];
    var used := |Expand(es)|;
    GreedyCut(t, n);
    ExpandConcat(done, es);
    SerializeConcat(done, es);
    assert es[0] == Greedy(t)[0];
    SliceOfSlice(src, at, used);
    assert Greedy(src[at + used..]) == rest;
    assert Greedy(t) == es + rest;
    ConcatAssociates(done, es, rest);
  }
}
