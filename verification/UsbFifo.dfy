/** The bootloader's read FIFO: a 256-slot ring between 64-byte USB packets and reads of any length.

    The ring is proved to be a plain byte queue, and a sequence of reads to hand out exactly the bytes the
    endpoint delivered, in order and without loss.
 */
module UsbFifo {
  import opened Bytes

  const BUF_SIZE: nat := 256
  const ENDPOINT_SIZE: nat := 64

  /** One answer of the endpoint to a read: a packet, possibly empty, or an error code. */
  datatype Packet = Delivered(data: seq<byte>) | Failed(code: int)

  /** The bytes a sequence of answers delivers. */
  function Stream(answers: seq<Packet>): seq<byte> {
    if answers == [] then [] else Stream(answers[..|answers| - 1]) + Data(answers[|answers| - 1])
  }

  function Data(p: Packet): seq<byte> {
    match p
    case Delivered(data) => data
    case Failed(_) => []
  }

  /** The value the endpoint read returns. */
  function Result(p: Packet): int {
    match p
    case Delivered(data) => |data|
    case Failed(code) => code
  }

  lemma StreamNext(answers: seq<Packet>, k: nat)
    requires k < |answers|
    ensures Stream(answers[..k + 1]) == Stream(answers[..k]) + Data(answers[k])
  {
    assert answers[..k + 1][..k] == answers[..k];
  }

  ghost predicate FromEndpoint(answers: seq<Packet>) {
    forall i :: 0 <= i < |answers| ==>
      (answers[i].Delivered? ==> |answers[i].data| <= ENDPOINT_SIZE) && (answers[i].Failed? ==> answers[i].code < 0)
  }

  /** The contents of a ring that is read at tail and written at head. */
  function Queue(ring: seq<byte>, head: nat, tail: nat): (q: seq<byte>)
    requires head < |ring| && tail < |ring|
  {
    if tail <= head then ring[tail..head] else ring[tail..] + ring[..head]
  }

  function Next(i: nat): nat { if i + 1 == BUF_SIZE then 0 else i + 1 }

  lemma QueueBounds(ring: seq<byte>, head: nat, tail: nat)
    requires |ring| == BUF_SIZE && head < BUF_SIZE && tail < BUF_SIZE
    ensures |Queue(ring, head, tail)| <= BUF_SIZE - 1
    ensures head == tail <==> Queue(ring, head, tail) == []
    ensures (head + 1 == tail || (tail == 0 && head == BUF_SIZE - 1)) <==> |Queue(ring, head, tail)| == BUF_SIZE - 1
  {
  }

  lemma Popped(ring: seq<byte>, head: nat, tail: nat)
    requires |ring| == BUF_SIZE && head < BUF_SIZE && tail < BUF_SIZE && head != tail
    ensures Queue(ring, head, tail) == [ring[tail]] + Queue(ring, head, Next(tail))
  {
  }

  lemma Pushed(ring: seq<byte>, head: nat, tail: nat, b: byte)
    requires |ring| == BUF_SIZE && head < BUF_SIZE && tail < BUF_SIZE && Next(head) != tail
    ensures Queue(ring[head := b], Next(head), tail) == Queue(ring, head, tail) + [b]
  {
    var after := ring[head := b];
    if tail <= head {
      assert after[tail..head] == ring[tail..head];
    } else {
      assert after[tail..] == ring[tail..];
      assert after[..head + 1] == ring[..head] + [b];
    }
  }

  lemma TakenOff(queue: seq<byte>, n: nat, b: byte, rest: seq<byte>)
    requires n <= |queue| && queue[n..] == [b] + rest
    ensures n < |queue| && queue[n] == b && queue[n + 1..] == rest
  {
    assert |queue[n..]| == 1 + |rest| && queue[n..][0] == b;
    assert queue[n..][1..] == rest;
  }

  class LinkPhy {
    const rdBuffer: array<byte>
    var rdHead: nat
    var rdTail: nat
    /** Every byte the endpoint has delivered, and every byte handed to a caller, since the link was opened. */
    ghost var delivered: seq<byte>
    ghost var returned: seq<byte>

    ghost predicate Ring()
      reads this`rdHead, this`rdTail
    {
      rdBuffer.Length == BUF_SIZE && rdHead < BUF_SIZE && rdTail < BUF_SIZE
    }

    ghost function Queued(): seq<byte>
      requires Ring()
      reads this`rdHead, this`rdTail, rdBuffer
    {
      Queue(rdBuffer[..], rdHead, rdTail)
    }

    /** No loss: what was delivered is what was returned followed by what is still queued. */
    ghost predicate Valid()
      reads this, rdBuffer
    {
      Ring() && delivered == returned + Queued()
    }

    constructor Open()
      ensures Valid() && fresh(rdBuffer) && Queued() == [] && delivered == returned == []
    {
      rdBuffer := new byte[BUF_SIZE];
      rdHead, rdTail := 0, 0;
      delivered, returned := [], [];
    }

    method Pop() returns (b: byte)
      requires Ring() && rdHead != rdTail
      modifies this`rdTail
      ensures Ring() && old(Queued()) == [b] + Queued()
    {
      Popped(rdBuffer[..], rdHead, rdTail);
      b := rdBuffer[rdTail];
      rdTail := rdTail + 1;
      if rdTail == BUF_SIZE {
        rdTail := 0;
      }
    }

    method Push(b: byte)
      requires Ring() && |Queued()| < BUF_SIZE - 1
      modifies this`rdHead, rdBuffer
      ensures Ring() && Queued() == old(Queued()) + [b]
    {
      QueueBounds(rdBuffer[..], rdHead, rdTail);
      Pushed(rdBuffer[..], rdHead, rdTail, b);
      ghost var before := rdBuffer[..];
      rdBuffer[rdHead] := b;
      assert rdBuffer[..] == before[rdHead := b];
      rdHead := rdHead + 1;
      if rdHead == BUF_SIZE {
        rdHead := 0;
      }
    }

    method ReadBuffer(dest: array<byte>, at: nat, nbyte: nat) returns (n: nat)
      requires Ring() && dest != rdBuffer && at + nbyte <= dest.Length
      modifies this`rdTail, dest
      ensures Ring() && n == Min(nbyte, |old(Queued())|)
      ensures Queued() == old(Queued())[n..]
      ensures dest[..at + n] == old(dest[..at]) + old(Queued())[..n]
      ensures forall k :: at + n <= k < dest.Length ==> dest[k] == old(dest[k])
    {
      n := 0;
      ghost var queue, dest0 := Queued(), dest[..at];
      while n < nbyte
        invariant Ring() && n <= nbyte && n <= |queue|
        invariant Queued() == queue[n..]
        invariant dest[..at + n] == dest0 + queue[..n]
        invariant forall k :: at + n <= k < dest.Length ==> dest[k] == old(dest[k])
      {
        QueueBounds(rdBuffer[..], rdHead, rdTail);
        if rdHead == rdTail {
          break;
        }
        var b := Pop();
        TakenOff(queue, n, b, Queued());
        PrefixGrows(dest0, queue, n);
        dest[at + n] := b;
        n := n + 1;
      }
    }

    /** Queues as much of src as there is room for; nbyte is the endpoint's result and may be negative. */
    method WriteBuffer(src: seq<byte>, nbyte: int) returns (n: nat)
      requires Ring() && nbyte <= |src|
      modifies this`rdHead, rdBuffer
      ensures Ring() && n == Min(Max(nbyte, 0), BUF_SIZE - 1 - |old(Queued())|)
      ensures Queued() == old(Queued()) + src[..n]
    {
      n := 0;
      ghost var queue := Queued();
      QueueBounds(rdBuffer[..], rdHead, rdTail);
      while n < nbyte
        invariant Ring() && n <= Max(nbyte, 0) && n <= |src| && |queue| + n <= BUF_SIZE - 1
        invariant Queued() == queue + src[..n]
      {
        QueueBounds(rdBuffer[..], rdHead, rdTail);
        if rdHead + 1 == rdTail || (rdTail == 0 && rdHead == BUF_SIZE - 1) {
          break;
        }
        PrefixGrows(queue, src, n);
        Push(src[n]);
        n := n + 1;
      }
    }

    /** One pass of the refill loop: the answer goes into the empty ring whole, and from there to the caller. */
    method Refill(buf: array<byte>, at: nat, nbyte: nat, answer: Packet) returns (more: nat)
      requires Ring() && Queued() == [] && buf != rdBuffer && at + nbyte <= buf.Length
      requires FromEndpoint([answer])
      modifies this`rdHead, this`rdTail, rdBuffer, buf
      ensures Ring() && more == Min(nbyte, |Data(answer)|)
      ensures Queued() == Data(answer)[more..]
      ensures buf[..at + more] == old(buf[..at]) + Data(answer)[..more]
      ensures forall k :: at + more <= k < buf.Length ==> buf[k] == old(buf[k])
    {
      var ret, buffer := Result(answer), Data(answer);
      assert answer == [answer][0];
      var _ := WriteBuffer(buffer, ret);
      assert Queued() == buffer;
      more := ReadBuffer(buf, at, nbyte);
    }

    /** One answer more, for a request that is not satisfied yet. */
    method NextAnswer(buf: array<byte>, at: nat, nbyte: nat, endpoint: seq<Packet>, used: nat, ghost queue: seq<byte>)
        returns (next: nat)
      requires Ring() && Queued() == [] && buf != rdBuffer && at < nbyte <= buf.Length
      requires used < |endpoint| && FromEndpoint(endpoint) && Balanced(buf[..at], [], queue, endpoint, used, nbyte)
      modifies this`rdHead, this`rdTail, rdBuffer, buf
      ensures Ring() && at <= next <= nbyte && (next < nbyte ==> Queued() == [])
      ensures Balanced(buf[..next], Queued(), queue, endpoint, used + 1, nbyte)
      ensures forall k :: next <= k < buf.Length ==> buf[k] == old(buf[k])
    {
      ghost var before := buf[..at];
      assert [endpoint[used]][0] == endpoint[used];
      var more := Refill(buf, at, nbyte - at, endpoint[used]);
      Passed(before, queue, endpoint, used, nbyte, more);
      next := at + more;
    }

    /** The body of link_phy_read: what is queued first, then one answer of the endpoint at a time, and none once
        the request is satisfied. */
    method Serve(buf: array<byte>, nbyte: nat, endpoint: seq<Packet>) returns (bytesRead: nat, used: nat)
      requires Ring() && buf != rdBuffer && nbyte <= buf.Length && FromEndpoint(endpoint)
      modifies this`rdHead, this`rdTail, rdBuffer, buf
      ensures Ring() && used <= |endpoint| && bytesRead <= nbyte
      ensures Balanced(buf[..bytesRead], Queued(), old(Queued()), endpoint, used, nbyte)
      ensures forall k :: bytesRead <= k < buf.Length ==> buf[k] == old(buf[k])
      ensures bytesRead < nbyte ==> Queued() == [] && used == |endpoint|
    {
      ghost var queue := Queued();
      bytesRead := ReadBuffer(buf, 0, nbyte);
      used := 0;
      StartsBalanced(buf[..bytesRead], Queued(), queue, endpoint, nbyte);
      while bytesRead < nbyte && used < |endpoint|
        invariant Ring() && used <= |endpoint| && bytesRead <= nbyte
        invariant bytesRead < nbyte ==> Queued() == []
        invariant Balanced(buf[..bytesRead], Queued(), queue, endpoint, used, nbyte)
        invariant forall k :: bytesRead <= k < buf.Length ==> buf[k] == old(buf[k])
      {
        bytesRead := NextAnswer(buf, bytesRead, nbyte, endpoint, used, queue);
        used := used + 1;
      }
    }

    /** One read request. The endpoint's answers are taken from endpoint in turn; when they run out the
        source is still waiting, which `waiting` reports. */
    method Read(buf: array<byte>, nbyte: nat, endpoint: seq<Packet>) returns (bytesRead: nat, used: nat, waiting: bool)
      requires Valid() && buf != rdBuffer && nbyte <= buf.Length && FromEndpoint(endpoint)
      modifies this, rdBuffer, buf
      ensures Valid() && used <= |endpoint| && bytesRead <= nbyte
      ensures buf[..bytesRead] + Queued() == old(Queued()) + Stream(endpoint[..used])
      ensures delivered == old(delivered) + Stream(endpoint[..used])
      ensures returned == old(returned) + buf[..bytesRead]
      ensures forall k :: bytesRead <= k < buf.Length ==> buf[k] == old(buf[k])
      ensures waiting <==> bytesRead < nbyte
      ensures used == 0 || |old(Queued())| + |Stream(endpoint[..used - 1])| < nbyte
      ensures waiting ==> used == |endpoint| && |old(Queued())| + |Stream(endpoint)| < nbyte
    {
      ghost var queue := Queued();
      bytesRead, used := Serve(buf, nbyte, endpoint);
      waiting := bytesRead < nbyte;
      assert endpoint[..|endpoint|] == endpoint;
      assert waiting ==> |buf[..bytesRead] + Queued()| == bytesRead;
      delivered := delivered + Stream(endpoint[..used]);
      returned := returned + buf[..bytesRead];
      ConcatAssociates(old(returned), queue, Stream(endpoint[..used]));
      ConcatAssociates(old(returned), buf[..bytesRead], Queued());
    }
  }

  /** What has been handed out and what is queued is what was queued before and the answers used, and before the
      last of these the request was not satisfied. */
  ghost predicate Balanced(out: seq<byte>, rest: seq<byte>, queue: seq<byte>, answers: seq<Packet>, used: nat, nbyte: nat)
    requires used <= |answers|
  {
    && out + rest == queue + Stream(answers[..used])
    && (used == 0 || |queue| + |Stream(answers[..used - 1])| < nbyte)
  }

  lemma StartsBalanced(out: seq<byte>, rest: seq<byte>, queue: seq<byte>, answers: seq<Packet>, nbyte: nat)
    requires |out| <= |queue| && out == queue[..|out|] && rest == queue[|out|..]
    ensures Balanced(out, rest, queue, answers, 0, nbyte)
  {
    Halves(queue, |out|);
  }

  /** The bytes of one answer, split between the caller and the ring, extend the stream by that answer. */
  lemma Passed(out: seq<byte>, queue: seq<byte>, answers: seq<Packet>, k: nat, nbyte: nat, more: nat)
    requires k < |answers| && more <= |Data(answers[k])| && |out| < nbyte && Balanced(out, [], queue, answers, k, nbyte)
    ensures Balanced(out + Data(answers[k])[..more], Data(answers[k])[more..], queue, answers, k + 1, nbyte)
  {
    var d, stream := Data(answers[k]), Stream(answers[..k]);
    assert out + [] == out && |out| == |queue| + |stream|;
    StreamNext(answers, k);
    Halves(d, more);
    ConcatAssociates(out, d[..more], d[more..]);
    ConcatAssociates(queue, stream, d);
  }
}
