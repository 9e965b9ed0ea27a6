/** The host's firmware update against a device that may lose power, or a link that may fail, at any step.

    The device reports where programs start as the offset `reported`. The bootloader fills that field in only
    after it has sent the attributes, so nothing is assumed about it: safety holds for every value, and
    success means that the image is in place exactly where the device said.
 */
module FirmwareUpdate {
  import opened Bytes
  import opened FlashCells
  import opened BootFlash
  import opened Bootloader
  import opened VectorChecksum

  const HEAD: nat := 256
  const BUFFER_SIZE: nat := 1024

  /** What happens to one link call: it goes through; it fails with a code after the device has carried out
      part of it; or a read delivers bytes that are not the memory's. */
  datatype Fault = Clean | Lost(done: nat, code: int) | Garbled(data: seq<byte>)

  /** Memory while the image is being written at `at`: its first 256 bytes are still blank, and the first
      `done` bytes of the rest are in place. */
  function Partial(size: nat, at: nat, image: seq<byte>, done: nat): (m: seq<byte>)
    ensures |m| == size
  {
    seq<byte>(size, i requires 0 <= i < size =>
      if at + HEAD <= i < at + done && i - at < |image| then image[i - at] else ERASED)
  }

  /** Memory that holds the complete image at `at` and nothing else. */
  function Installed(size: nat, at: nat, image: seq<byte>): (m: seq<byte>)
    ensures |m| == size
  {
    seq<byte>(size, i requires 0 <= i < size => if at <= i < at + |image| then image[i - at] else ERASED)
  }

  /** The bytes the host sends for a chunk: the first chunk has its first 256 bytes blanked. */
  function Chunk(image: seq<byte>, done: nat, size: nat): (c: seq<byte>)
    requires done + size <= |image|
    ensures |c| == size
  {
    seq<byte>(size, i requires 0 <= i < size => if done + i < HEAD then ERASED else image[done + i])
  }

  function ChunkSize(image: seq<byte>, done: nat): (n: nat)
    ensures done <= |image| ==> done + n <= |image|
  {
    if |image| - done > BUFFER_SIZE then BUFFER_SIZE else if |image| > done then |image| - done else 0
  }

  lemma NothingWritten(size: nat, at: nat, image: seq<byte>)
    ensures Partial(size, at, image, 0) == Blank(size)
  {
  }

  lemma ChunkExtends(size: nat, at: nat, image: seq<byte>, done: nat, n: nat)
    requires at + done + n <= size && done + n <= |image| && (done == 0 || done >= HEAD)
    ensures Burn(Partial(size, at, image, done), at + done, Chunk(image, done, n)) == Partial(size, at, image, done + n)
  {
    var before, chunk := Partial(size, at, image, done), Chunk(image, done, n);
    var burnt, after := Burn(before, at + done, chunk), Partial(size, at, image, done + n);
    forall i | 0 <= i < size
      ensures burnt[i] == after[i]
    {
      BurnAt(before, at + done, chunk, i);
    }
  }

  /** Writing the head last completes the image; no byte before it was missing. */
  lemma HeadCompletes(size: nat, at: nat, image: seq<byte>)
    requires HEAD <= |image| && at + |image| <= size
    ensures Burn(Partial(size, at, image, |image|), at, image[..HEAD]) == Installed(size, at, image)
  {
    var before, head := Partial(size, at, image, |image|), image[..HEAD];
    forall i | 0 <= i < size
      ensures Burn(before, at, head)[i] == Installed(size, at, image)[i]
    {
      BurnAt(before, at, head, i);
    }
  }

  lemma PartialIsUnbootable(size: nat, at: nat, image: seq<byte>, done: nat)
    requires 4 <= size
    ensures Unbootable(Partial(size, at, image, done))
  {
  }

  /** What is read back of a chunk that was written is that chunk. */
  lemma ReadsBack(size: nat, at: nat, image: seq<byte>, done: nat, n: nat)
    requires at + |image| <= size && done + n <= |image|
    ensures Partial(size, at, image, |image|)[at + done..at + done + n] == Chunk(image, done, n)
  {
  }

  /** An image that was put somewhere else than at the start of programs leaves the device unbootable, and is not
      the installed image unless it is blank. */
  lemma InstalledElsewhere(size: nat, start: nat, image: seq<byte>)
    requires Suits(size, start, image) && HEAD <= |image|
    ensures Unbootable(Installed(size, start, image)) <==> start != 0 || Unbootable(image)
    ensures Installed(size, start, image) == Installed(size, 0, image) <==> start == 0 || IsBlank(image)
  {
    if start != 0 && Installed(size, start, image) == Installed(size, 0, image) {
      forall i | 0 <= i < |image|
        ensures image[i] == ERASED
      {
        ShiftedByte(size, start, image, i);
      }
    }
  }

  lemma {:induction false} ShiftedByte(size: nat, start: nat, image: seq<byte>, i: nat)
    requires 0 < start && start + |image| <= size && i < |image|
    requires Installed(size, start, image) == Installed(size, 0, image)
    ensures image[i] == ERASED
  {
    assert Installed(size, 0, image)[i] == image[i];
    if start <= i {
      ShiftedByte(size, start, image, i - start);
    }
  }

  // ---------------------------------------------------------------- the calls on the link

  /** A call on the link, with its arguments and what came back. */
  datatype Call =
    | Erased(err: int)
    | Attributes(err: int)
    | Wrote(at: int, data: seq<byte>, err: int)
    | ReadBack(at: int, size: nat, err: int, data: seq<byte>)

  /** There are at least n chunks in the image. */
  predicate HasChunks(image: seq<byte>, n: nat) { n == 0 || BUFFER_SIZE * (n - 1) < |image| }

  /** There are exactly n chunks in the image. */
  predicate AllChunks(image: seq<byte>, n: nat) { HasChunks(image, n) && |image| <= BUFFER_SIZE * n }

  /** How much of the image has been sent after k chunks. */
  function Sent(image: seq<byte>, k: nat): nat {
    if BUFFER_SIZE * k < |image| then BUFFER_SIZE * k else |image|
  }

  lemma NextChunk(image: seq<byte>, n: nat)
    requires BUFFER_SIZE * n < |image|
    ensures HasChunks(image, n + 1) && (BUFFER_SIZE * n == 0 || HEAD <= BUFFER_SIZE * n)
    ensures Sent(image, n) == BUFFER_SIZE * n
    ensures BUFFER_SIZE * n + ChunkSize(image, BUFFER_SIZE * n) == Sent(image, n + 1)
  {
  }

  /** The progress callback lets the first n chunks pass. */
  ghost predicate NotStopped(abort: nat -> bool, image: seq<byte>, n: nat) {
    forall k: nat :: 1 <= k <= n ==> !abort(Sent(image, k))
  }

  /** The progress callback asks to stop at the n-th chunk and not before. */
  ghost predicate StoppedAt(abort: nat -> bool, image: seq<byte>, n: nat) {
    n > 0 && NotStopped(abort, image, n - 1) && abort(Sent(image, n))
  }

  lemma OneMorePassed(abort: nat -> bool, image: seq<byte>, n: nat)
    requires NotStopped(abort, image, n)
    ensures if abort(Sent(image, n + 1)) then StoppedAt(abort, image, n + 1) else NotStopped(abort, image, n + 1)
  {
  }

  /** The progress callback never asks to stop while the image is sent. */
  ghost predicate NeverAborts(abort: nat -> bool, image: seq<byte>) {
    forall k: nat :: 1 <= k && HasChunks(image, k) ==> !abort(Sent(image, k))
  }

  /** The first n chunks written in order, each in full. */
  function Writes(start: int, image: seq<byte>, n: nat): (calls: seq<Call>)
    requires HasChunks(image, n)
    ensures |calls| == n
  {
    if n == 0 then []
    else
      var done := BUFFER_SIZE * (n - 1);
      var size := ChunkSize(image, done);
      Writes(start, image, n - 1) + [Wrote(start + done, Chunk(image, done, size), size)]
  }

  /** The first n chunks read back in order, each in full and as it was sent. */
  function Matches(start: int, image: seq<byte>, n: nat): (calls: seq<Call>)
    requires HasChunks(image, n)
  {
    if n == 0 then []
    else
      var done := BUFFER_SIZE * (n - 1);
      var size := ChunkSize(image, done);
      Matches(start, image, n - 1) + [ReadBack(start + done, size, size, Chunk(image, done, size))]
  }

  /** How the verify loop ends: every chunk matched, or a call failed, or a chunk came back different. */
  datatype Outcome = Matched | Unread | Mismatched

  /** The calls of a verify loop that matched n chunks and then ended with this outcome. */
  ghost predicate Verifies(calls: seq<Call>, start: int, image: seq<byte>, n: nat, outcome: Outcome) {
    && HasChunks(image, n)
    && if outcome.Matched? then AllChunks(image, n) && calls == Matches(start, image, n)
      else
        && calls != [] && calls[..|calls| - 1] == Matches(start, image, n) && BUFFER_SIZE * n < |image|
        && Compared(calls[|calls| - 1], start, image, BUFFER_SIZE * n, outcome)
  }

  /** The call reads the chunk at `done`, with this outcome. */
  ghost predicate Compared(call: Call, start: int, image: seq<byte>, done: nat, outcome: Outcome)
    requires done < |image|
  {
    && call.ReadBack? && call.at == start + done && call.size == ChunkSize(image, done)
    && (outcome.Unread? <==> call.err != call.size)
    && (outcome.Matched? <==> call.err == call.size && call.data == Chunk(image, done, call.size))
  }

  /** The last calls of an update that went through. */
  function HeadCalls(start: int, image: seq<byte>, verify: bool): seq<Call>
    requires HEAD <= |image|
  {
    [Wrote(start, image[..HEAD], HEAD)] + if verify then [ReadBack(start, HEAD, HEAD, image[..HEAD])] else []
  }

  /** The calls of an update that went through: erase, attributes, every chunk, the comparison if asked for,
      and the head. A comparison may have been cut short by a failed read, but no chunk came back different. */
  ghost predicate Transcript(calls: seq<Call>, start: int, image: seq<byte>, verify: bool)
    requires HEAD <= |image|
  {
    Opens(calls) && Installs(calls[2..], start, image, verify)
  }

  /** The erase and the attribute request went through. */
  ghost predicate Opens(calls: seq<Call>) {
    |calls| >= 2 && calls[0] == Erased(0) && calls[1].Attributes? && calls[1].err >= 0
  }

  ghost predicate Installs(calls: seq<Call>, start: int, image: seq<byte>, verify: bool)
    requires HEAD <= |image|
  {
    exists n: nat, tail: seq<Call> ::
      && AllChunks(image, n) && Finishes(tail, start, image, verify) && calls == Writes(start, image, n) + tail
  }

  ghost predicate Finishes(calls: seq<Call>, start: int, image: seq<byte>, verify: bool)
    requires HEAD <= |image|
  {
    exists checks :: Checks(checks, start, image, verify) && calls == checks + HeadCalls(start, image, verify)
  }

  ghost predicate Checks(checks: seq<Call>, start: int, image: seq<byte>, verify: bool) {
    if verify then exists k: nat, outcome :: Verifies(checks, start, image, k, outcome) && !outcome.Mismatched?
    else checks == []
  }

  // ---------------------------------------------------------------- the calls of an update that did not go through

  /** The progress callback stopped the update after n chunks. Nothing is erased. */
  ghost predicate StoppedAfter(calls: seq<Call>, start: int, image: seq<byte>, abort: nat -> bool, n: nat) {
    HasChunks(image, n) && calls == Writes(start, image, n) && StoppedAt(abort, image, n)
  }

  /** The write of the chunk after the first n failed, and flash was erased again. */
  ghost predicate FailedAfter(calls: seq<Call>, start: int, image: seq<byte>, abort: nat -> bool, n: nat) {
    && BUFFER_SIZE * n < |image| && |calls| == n + 2 && calls[..n] == Writes(start, image, n)
    && FailedWrite(calls[n], start, image, n) && calls[n + 1].Erased? && NotStopped(abort, image, n)
  }

  ghost predicate FailedWrite(call: Call, start: int, image: seq<byte>, n: nat)
    requires BUFFER_SIZE * n < |image|
  {
    var done := BUFFER_SIZE * n;
    call.Wrote? && call.at == start + done && call.data == Chunk(image, done, ChunkSize(image, done)) && call.err < 0
  }

  /** The comparison ended at a chunk that came back different. */
  ghost predicate Differs(calls: seq<Call>, start: int, image: seq<byte>) {
    exists n: nat :: Verifies(calls, start, image, n, Mismatched)
  }

  /** The head was not written, was not read back, or came back different, in which case flash was erased again. */
  ghost predicate HeadFailed(calls: seq<Call>, start: int, image: seq<byte>, verify: bool)
    requires HEAD <= |image|
  {
    && calls != [] && calls[0].Wrote? && calls[0].at == start && calls[0].data == image[..HEAD]
    && if |calls| == 1 then calls[0].err < 0
      else
        && verify && calls[0].err == HEAD && calls[1].ReadBack? && calls[1].at == start && calls[1].size == HEAD
        && if |calls| == 2 then calls[1].err != HEAD
          else |calls| == 3 && calls[1].err == HEAD && calls[1].data != image[..HEAD] && calls[2].Erased?
  }

  /** What followed a complete write loop failed: a chunk came back different, or the head failed, which is tried
      also when the comparison could not be finished. */
  ghost predicate FinishFailed(calls: seq<Call>, start: int, image: seq<byte>, verify: bool)
    requires HEAD <= |image|
  {
    || (verify && Differs(calls, start, image))
    || exists checks :: Checks(checks, start, image, verify) && checks <= calls && HeadFailed(calls[|checks|..], start, image, verify)
  }

  ghost predicate FinishFailedAfter(calls: seq<Call>, start: int, image: seq<byte>, verify: bool, abort: nat -> bool, n: nat)
    requires HEAD <= |image|
  {
    && AllChunks(image, n) && NotStopped(abort, image, n) && n <= |calls| && calls[..n] == Writes(start, image, n)
    && FinishFailed(calls[n..], start, image, verify)
  }

  /** Every way in which the part of an update after the attribute request can end without success. */
  ghost predicate Abandoned(calls: seq<Call>, start: int, image: seq<byte>, verify: bool, abort: nat -> bool)
    requires HEAD <= |image|
  {
    exists n: nat ::
      || StoppedAfter(calls, start, image, abort, n)
      || FailedAfter(calls, start, image, abort, n)
      || FinishFailedAfter(calls, start, image, verify, abort, n)
  }

  /** Every way in which an update of a bootloader can end without success. */
  ghost predicate Fails(calls: seq<Call>, start: int, image: seq<byte>, verify: bool, abort: nat -> bool)
    requires HEAD <= |image|
  {
    || (|calls| == 1 && calls[0].Erased? && calls[0].err < 0)
    || (|calls| == 2 && calls[0] == Erased(0) && calls[1].Attributes? && calls[1].err < 0)
    || (Opens(calls) && Abandoned(calls[2..], start, image, verify, abort))
  }

  /** The last call on record is not a failed write, unless it is that of the head. */
  ghost predicate NoFailedWriteLast(calls: seq<Call>, start: int, image: seq<byte>)
    requires HEAD <= |image|
  {
    calls != [] && var last := calls[|calls| - 1];
      last.Wrote? && last.err < 0 ==> last.at == start && last.data == image[..HEAD]
  }

  /** Of an update that fails, every failed write but that of the head is followed by an erase. */
  lemma FailedWritesAreErased(calls: seq<Call>, start: int, image: seq<byte>, verify: bool, abort: nat -> bool)
    requires HEAD <= |image| && Fails(calls, start, image, verify, abort)
    ensures NoFailedWriteLast(calls, start, image)
  {
    if Opens(calls) && Abandoned(calls[2..], start, image, verify, abort) {
      AbandonedIsErased(calls[2..], start, image, verify, abort);
    }
  }

  lemma AbandonedIsErased(calls: seq<Call>, start: int, image: seq<byte>, verify: bool, abort: nat -> bool)
    requires HEAD <= |image| && Abandoned(calls, start, image, verify, abort)
    ensures NoFailedWriteLast(calls, start, image)
  {
    var n: nat :| StoppedAfter(calls, start, image, abort, n) || FailedAfter(calls, start, image, abort, n)
      || FinishFailedAfter(calls, start, image, verify, abort, n);
    if FinishFailedAfter(calls, start, image, verify, abort, n) {
      FinishIsNoWrite(calls[n..], start, image, verify);
      assert calls[n..][|calls[n..]| - 1] == calls[|calls| - 1];
    } else if StoppedAfter(calls, start, image, abort, n) {
      assert calls[|calls| - 1].err > 0;
    }
  }

  lemma FinishIsNoWrite(calls: seq<Call>, start: int, image: seq<byte>, verify: bool)
    requires HEAD <= |image| && FinishFailed(calls, start, image, verify)
    ensures NoFailedWriteLast(calls, start, image)
  {
    if !(verify && Differs(calls, start, image)) {
      var checks :| Checks(checks, start, image, verify) && checks <= calls && HeadFailed(calls[|checks|..], start, image, verify);
      var tail := calls[|checks|..];
      assert tail[|tail| - 1] == calls[|calls| - 1];
    }
  }

  lemma Spliced(before: seq<Call>, erase: Call, attr: Call, log: seq<Call>)
    requires before + [erase] + [attr] <= log
    ensures before <= log
    ensures var calls := log[|before|..];
      |calls| >= 2 && calls[0] == erase && calls[1] == attr && calls[2..] == log[|before| + 2..]
  {
    assert log[..|before| + 2] == before + [erase] + [attr];
  }

  /** The link to a device in bootloader mode. The i-th call meets the i-th fault. */
  class Link {
    const device: AppFlash
    const faults: nat -> Fault
    const reported: int
    var calls: nat
    ghost var log: seq<Call>

    constructor (device: AppFlash, faults: nat -> Fault, reported: int)
      ensures this.device == device && this.faults == faults && this.reported == reported && calls == 0 && log == []
    {
      this.device, this.faults, this.reported, this.calls := device, faults, reported, 0;
      log := [];
    }

    ghost predicate Faultless() {
      forall i: nat :: faults(i).Clean?
    }

    method NextFault() returns (fault: Fault)
      modifies this`calls
      ensures Faultless() ==> fault.Clean?
    {
      fault := faults(calls);
      calls := calls + 1;
    }

    /** link_eraseflash: the device answers before it starts, so a failed call may still have erased. */
    method EraseFlash(ghost goal: seq<byte>) returns (err: int)
      requires device.Valid() && |goal| == |device.memory|
      modifies this`calls, this`log, device
      ensures device.Valid() && |device.memory| == |old(device.memory)|
      ensures log == old(log) + [Erased(err)]
      ensures err <= 0 && (Faultless() ==> err == 0)
      ensures err == 0 ==> device.memory == Blank(|device.memory|) && Fresh(device, 0, 0)
      ensures Extends(old(device.history), device.history, goal)
    {
      var fault := NextFault();
      if fault.Lost? {
        if fault.done > 0 {
          device.EraseFlash(goal);
        }
        log := log + [Erased(-1)];
        return -1;
      }
      device.EraseFlash(goal);
      log := log + [Erased(0)];
      err := 0;
    }

    /** The attribute request: the code and the offset the host takes for the start of programs. */
    method GetAttr() returns (err: int, start: int)
      modifies this`calls, this`log
      ensures start == reported && (Faultless() ==> err == 0)
      ensures log == old(log) + [Attributes(err)]
    {
      var fault := NextFault();
      err := if fault.Lost? then fault.code else 0;
      start := reported;
      log := log + [Attributes(err)];
    }

    /** link_writeflash for at most one bootloader page. It returns the byte count or a negative code; a lost
        call may have programmed any number of leading units. */
    method WriteFlash(at: int, data: seq<byte>, ghost goal: seq<byte>) returns (err: int)
      requires device.Valid() && |goal| == |device.memory| && 0 < |data| <= BUFFER_SIZE
      requires device.Accepts(at, |data|) ==> device.WriteOnce(at, data) && device.Harmless(at, data, goal)
      modifies this`calls, this`log, device
      ensures device.Valid() && |device.memory| == |old(device.memory)|
      ensures log == old(log) + [Wrote(at, data, err)]
      ensures err == |data| || err < 0
      ensures err == |data| ==> old(device.Accepts(at, |data|)) && device.memory == Burn(old(device.memory), at, data)
      ensures forall i :: i in device.burned ==> i in old(device.burned) || Programs(at, data, i)
      ensures Extends(old(device.history), device.history, goal)
      ensures Faultless() && old(device.Accepts(at, |data|)) ==> err == |data|
    {
      var fault := NextFault();
      var units := if fault.Lost? then fault.done else BUFFER_SIZE / MIN_WRITE;
      var ok, done := device.WritePage(at, data, units, goal);
      assert data[..|data|] == data;
      err := if !fault.Lost? && ok then |data| else if fault.Lost? && fault.code < 0 then fault.code else -1;
      log := log + [Wrote(at, data, err)];
    }

    /** link_readflash: the count and the bytes, or some other result. */
    method ReadFlash(at: int, n: nat) returns (err: int, data: seq<byte>)
      requires device.Valid()
      modifies this`calls, this`log
      ensures log == old(log) + [ReadBack(at, n, err, data)]
      ensures err == n ==> |data| == n
      ensures Faultless() && 0 <= at && at + n <= |device.memory| ==> err == n && data == device.memory[at..at + n]
    {
      var fault := NextFault();
      if fault.Lost? || !(0 <= at && at + n <= |device.memory|) {
        err, data := if fault.Lost? && fault.code != n then fault.code else -1, [];
      } else {
        err, data := n, device.memory[at..at + n];
        if fault.Garbled? && |fault.data| == n {
          data := fault.data;
        }
      }
      log := log + [ReadBack(at, n, err, data)];
    }
  }

  /** Only the given part of the memory has been programmed since the erase. */
  ghost predicate Fresh(device: AppFlash, from: int, to: int)
    reads device
  {
    Confined(device.burned, |device.memory|, from, to)
  }

  ghost predicate Confined(burned: set<int>, size: nat, from: int, to: int) {
    forall i :: i in burned && 0 <= i < size ==> from <= i < to
  }

  /** A chunk programs no byte of the head and none beyond its own end. */
  lemma ChunkIsConfined(before: set<int>, after: set<int>, size: nat, start: int, image: seq<byte>, done: nat, n: nat)
    requires done + n <= |image| && (done == 0 || HEAD <= done)
    requires Confined(before, size, if done == 0 then 0 else start + HEAD, if done == 0 then 0 else start + done)
    requires forall i :: i in after ==> i in before || Programs(start + done, Chunk(image, done, n), i)
    ensures Confined(after, size, start + HEAD, start + done + n)
  {
  }

  /** The device takes an image at this offset. */
  predicate Suits(size: nat, start: int, image: seq<byte>) {
    0 <= start && start % MIN_WRITE == 0 && start + |image| <= size
  }

  /** The device holds the image except for its head, and the head has not been programmed yet. */
  ghost predicate BodyWritten(device: AppFlash, start: int, image: seq<byte>)
    reads device
  {
    && Suits(|device.memory|, start, image)
    && device.memory == Partial(|device.memory|, start, image, |image|)
    && Fresh(device, start + HEAD, start + |image|)
  }

  /** The state of the write loop after `done` bytes; nothing was accepted unless the offset is aligned. */
  ghost predicate Writing(device: AppFlash, start: int, image: seq<byte>, done: nat)
    reads device
  {
    && (done == 0 || HEAD <= done) && done <= |image| && (done % BUFFER_SIZE == 0 || done == |image|)
    && device.memory == Partial(|device.memory|, Max(start, 0), image, done)
    && (if done == 0 then Fresh(device, 0, 0)
        else 0 <= start && start % MIN_WRITE == 0 && start + done <= |device.memory| && Fresh(device, start + HEAD, start + done))
  }

  /** The write loop of updateOS, which wrote n chunks. Zero means that those were all, a positive result that
      the progress callback asked to stop, and a negative one that the next write failed. */
  method WriteBody(link: Link, image: seq<byte>, start: int, abort: nat -> bool, ghost goal: seq<byte>)
      returns (err: int, ghost n: nat)
    requires link.device.Valid() && |goal| == |link.device.memory| && HEAD <= |image|
    requires link.device.memory == Blank(|link.device.memory|) && Fresh(link.device, 0, 0)
    modifies link`calls, link`log, link.device
    ensures link.device.Valid() && |link.device.memory| == |old(link.device.memory)|
    ensures Recorded(link.log, old(link.log), start, image, abort, n, err)
    ensures err == 0 ==> AllChunks(image, n) && BodyWritten(link.device, start, image)
    ensures Extends(old(link.device.history), link.device.history, goal)
    ensures link.Faultless() && Suits(|link.device.memory|, start, image) ==> err >= 0
  {
    var done := 0;
    err, n := 0, 0;
    NothingWritten(|link.device.memory|, Max(start, 0), image);
    while done < |image| && err == 0
      invariant link.device.Valid() && |link.device.memory| == |old(link.device.memory)|
      invariant Recorded(link.log, old(link.log), start, image, abort, n, err) && done == Sent(image, n)
      invariant err == 0 ==> Writing(link.device, start, image, done)
      invariant Extends(old(link.device.history), link.device.history, goal)
      invariant link.Faultless() && Suits(|link.device.memory|, start, image) ==> err >= 0
      decreases |image| - done, err == 0
    {
      NextChunk(image, n);
      var size := ChunkSize(image, done);
      ghost var past, calls := link.device.history, link.log;
      err := WriteChunk(link, image, start, done, size, goal);
      ExtendsTransitive(old(link.device.history), past, link.device.history, goal);
      OneMoreRecorded(old(link.log), calls, link.log, start, image, abort, n, err);
      if err == size {
        done, n := done + size, n + 1;
        err := if abort(done) then size else 0;
      }
    }
    if err == 0 {
      AllWritten(link.device, start, image);
    }
  }

  /** The record has the first n chunks written and then a write that failed. */
  ghost predicate OneMoreFailed(log: seq<Call>, before: seq<Call>, start: int, image: seq<byte>, n: nat)
    requires HasChunks(image, n)
  {
    && BUFFER_SIZE * n < |image| && log != [] && log[..|log| - 1] == before + Writes(start, image, n)
    && FailedWrite(log[|log| - 1], start, image, n)
  }

  lemma AllWritten(device: AppFlash, start: int, image: seq<byte>)
    requires Writing(device, start, image, |image|) && HEAD <= |image|
    ensures BodyWritten(device, start, image)
  {
  }

  /** What the write loop leaves on record when it has written n chunks and its result is err. */
  ghost predicate Recorded(log: seq<Call>, before: seq<Call>, start: int, image: seq<byte>, abort: nat -> bool, n: nat, err: int) {
    && HasChunks(image, n) && before <= log
    && (if err >= 0 then log == before + Writes(start, image, n) else OneMoreFailed(log, before, start, image, n))
    && (if err > 0 then StoppedAt(abort, image, n) else NotStopped(abort, image, n))
  }

  lemma OneMoreRecorded(before: seq<Call>, calls: seq<Call>, log: seq<Call>, start: int, image: seq<byte>, abort: nat -> bool,
      n: nat, err: int)
    requires BUFFER_SIZE * n < |image| && Recorded(calls, before, start, image, abort, n, 0)
    requires err == ChunkSize(image, BUFFER_SIZE * n) || err < 0
    requires var done := BUFFER_SIZE * n;
      log == calls + [Wrote(start + done, Chunk(image, done, ChunkSize(image, done)), err)]
    ensures if err < 0 then Recorded(log, before, start, image, abort, n, err)
      else Recorded(log, before, start, image, abort, n + 1, if abort(Sent(image, n + 1)) then err else 0)
  {
    ConcatAssociates(before, Writes(start, image, n), [log[|log| - 1]]);
    OneMorePassed(abort, image, n);
  }

  /** What fread puts in the host's buffer, blanked over the head for the first chunk. */
  method HostBuffer(image: seq<byte>, done: nat, n: nat) returns (buffer: seq<byte>)
    requires HEAD <= |image| && done < |image| && n == ChunkSize(image, done) && (done == 0 || HEAD <= done)
    ensures buffer == Chunk(image, done, n)
  {
    buffer := image[done..done + n];
    if done == 0 {
      buffer := Blank(HEAD) + buffer[HEAD..];
    }
  }

  /** One pass of the write loop: the chunk, with its head blanked if it is the first, goes to the device. */
  method WriteChunk(link: Link, image: seq<byte>, start: int, done: nat, n: nat, ghost goal: seq<byte>)
      returns (err: int)
    requires link.device.Valid() && |goal| == |link.device.memory|
    requires HEAD <= |image| && done < |image| && n == ChunkSize(image, done)
    requires Writing(link.device, start, image, done)
    modifies link`calls, link`log, link.device
    ensures link.device.Valid() && |link.device.memory| == |old(link.device.memory)|
    ensures link.log == old(link.log) + [Wrote(start + done, Chunk(image, done, n), err)]
    ensures err == n || err < 0
    ensures err == n ==> Writing(link.device, start, image, done + n)
    ensures Extends(old(link.device.history), link.device.history, goal)
    ensures link.Faultless() && Suits(|link.device.memory|, start, image) ==> err == n
  {
    var buffer := HostBuffer(image, done, n);
    ghost var burned := link.device.burned;
    AlignedChunks(start, done);
    if link.device.Accepts(start + done, n) {
      ChunkIsSafe(link.device, start, image, done, n, goal);
    }
    err := link.WriteFlash(start + done, buffer, goal);
    if err == n {
      ChunkWritten(link.device, start, image, done, n, burned);
    }
  }

  /** A chunk that went through takes the write loop one step further. */
  lemma ChunkWritten(device: AppFlash, start: nat, image: seq<byte>, done: nat, n: nat, burned: set<int>)
    requires done < |image| && n == ChunkSize(image, done) && (done == 0 || HEAD <= done) && HEAD <= |image|
    requires done % BUFFER_SIZE == 0 && start % MIN_WRITE == 0 && start + done + n <= |device.memory|
    requires device.memory == Burn(Partial(|device.memory|, start, image, done), start + done, Chunk(image, done, n))
    requires Confined(burned, |device.memory|, if done == 0 then 0 else start + HEAD, if done == 0 then 0 else start + done)
    requires forall i :: i in device.burned ==> i in burned || Programs(start + done, Chunk(image, done, n), i)
    ensures Writing(device, start, image, done + n)
  {
    ChunkExtends(|device.memory|, start, image, done, n);
    ChunkIsConfined(burned, device.burned, |device.memory|, start, image, done, n);
  }

  /** A chunk never touches the first word with anything but 0xFF, nor a byte programmed before. */
  lemma ChunkIsSafe(device: AppFlash, start: int, image: seq<byte>, done: nat, n: nat, goal: seq<byte>)
    requires device.Valid() && Writing(device, start, image, done) && done + n <= |image|
    requires device.Accepts(start + done, n)
    ensures device.WriteOnce(start + done, Chunk(image, done, n)) && device.Harmless(start + done, Chunk(image, done, n), goal)
  {
    PartialIsUnbootable(|device.memory|, Max(start, 0), image, done);
  }

  lemma AlignedChunks(start: int, done: nat)
    requires done % BUFFER_SIZE == 0
    ensures (start + done) % MIN_WRITE == 0 <==> start % MIN_WRITE == 0
  {
    assert done == MIN_WRITE * (4 * (done / BUFFER_SIZE));
  }

  /** One pass of the verify loop: the chunk is read back and compared with what was sent. */
  method VerifyChunk(link: Link, image: seq<byte>, start: int, done: nat) returns (outcome: Outcome)
    requires link.device.Valid() && HEAD <= |image| && done < |image| && (done == 0 || HEAD <= done)
    modifies link`calls, link`log
    ensures |link.log| == |old(link.log)| + 1 && link.log[..|old(link.log)|] == old(link.log)
    ensures Compared(link.log[|old(link.log)|], start, image, done, outcome)
    ensures link.Faultless() && BodyWritten(link.device, start, image) ==> outcome.Matched?
  {
    var size := ChunkSize(image, done);
    var buffer := HostBuffer(image, done, size);
    if BodyWritten(link.device, start, image) {
      ReadsBack(|link.device.memory|, start, image, done, size);
    }
    var err, data := link.ReadFlash(start + done, size);
    outcome := if err != size then Unread else if data != buffer then Mismatched else Matched;
  }

  /** The verify loop of updateOS. It only reads; a mismatch ends the update, a failed read only the loop. */
  method VerifyBody(link: Link, image: seq<byte>, start: int) returns (outcome: Outcome, ghost n: nat)
    requires link.device.Valid() && HEAD <= |image|
    modifies link`calls, link`log
    ensures old(link.log) <= link.log && Verifies(link.log[|old(link.log)|..], start, image, n, outcome)
    ensures link.Faultless() && BodyWritten(link.device, start, image) ==> outcome.Matched?
  {
    var done := 0;
    outcome, n := Matched, 0;
    while done < |image|
      invariant HasChunks(image, n) && done == Sent(image, n)
      invariant link.log == old(link.log) + Matches(start, image, n) && outcome.Matched?
    {
      NextChunk(image, n);
      outcome := VerifyChunk(link, image, start, done);
      OneMoreCompared(old(link.log), link.log, start, image, n, outcome);
      if !outcome.Matched? {
        return;
      }
      done, n := done + ChunkSize(image, done), n + 1;
    }
    AllCompared(old(link.log), link.log, start, image, n);
  }

  lemma AllCompared(before: seq<Call>, log: seq<Call>, start: int, image: seq<byte>, n: nat)
    requires AllChunks(image, n) && log == before + Matches(start, image, n)
    ensures before <= log && Verifies(log[|before|..], start, image, n, Matched)
  {
    assert log[|before|..] == Matches(start, image, n);
  }

  lemma OneMoreCompared(before: seq<Call>, log: seq<Call>, start: int, image: seq<byte>, n: nat, outcome: Outcome)
    requires HasChunks(image, n) && BUFFER_SIZE * n < |image|
    requires |log| > 0 && log[..|log| - 1] == before + Matches(start, image, n)
    requires Compared(log[|log| - 1], start, image, BUFFER_SIZE * n, outcome)
    ensures before <= log
    ensures if outcome.Matched? then log == before + Matches(start, image, n + 1)
      else Verifies(log[|before|..], start, image, n, outcome)
  {
    var call := log[|log| - 1];
    assert log == before + Matches(start, image, n) + [call];
    ConcatAssociates(before, Matches(start, image, n), [call]);
    assert log[|before|..] == Matches(start, image, n) + [call];
  }

  /** Over a complete body the head programs nothing twice, and it either leaves the first word alone or makes the
      image complete at once. */
  lemma HeadIsSafe(device: AppFlash, start: int, image: seq<byte>)
    requires device.Valid() && HEAD <= |image| && BodyWritten(device, start, image)
    ensures device.WriteOnce(start, image[..HEAD])
    ensures device.Harmless(start, image[..HEAD], Installed(|device.memory|, 0, image))
    ensures device.Accepts(start, HEAD)
    ensures Burn(device.memory, start, image[..HEAD]) == Installed(|device.memory|, start, image)
  {
    PartialIsUnbootable(|device.memory|, start, image, |image|);
    HeadCompletes(|device.memory|, start, image);
  }

  lemma HeadReadsBack(size: nat, start: nat, image: seq<byte>)
    requires HEAD <= |image| && start + |image| <= size
    ensures Installed(size, start, image)[start..start + HEAD] == image[..HEAD]
  {
  }

  /** The last steps: the real head is written and, if asked for, read back. */
  method WriteHead(link: Link, image: seq<byte>, start: int, verify: bool)
      returns (err: int, finalized: bool, ghost tail: seq<Call>)
    requires link.device.Valid() && HEAD <= |image| && BodyWritten(link.device, start, image)
    modifies link`calls, link`log, link.device
    ensures link.device.Valid() && |link.device.memory| == |old(link.device.memory)|
    ensures Extends(old(link.device.history), link.device.history, Installed(|link.device.memory|, 0, image))
    ensures link.log == old(link.log) + tail
    ensures finalized ==> err == HEAD && link.device.memory == Installed(|link.device.memory|, start, image)
    ensures finalized ==> tail == HeadCalls(start, image, verify)
    ensures !finalized ==> err == -1 && HeadFailed(tail, start, image, verify)
    ensures link.Faultless() ==> finalized
  {
    ghost var goal := Installed(|link.device.memory|, 0, image);
    var stackaddr := image[..HEAD];
    HeadIsSafe(link.device, start, image);
    err := link.WriteFlash(start, stackaddr, goal);
    tail := [Wrote(start, stackaddr, err)];
    if err != HEAD {
      return -1, false, tail;
    }
    HeadReadsBack(|link.device.memory|, start, image);
    if verify {
      ghost var past := link.device.history;
      var data;
      err, data := link.ReadFlash(start, HEAD);
      tail := tail + [ReadBack(start, HEAD, err, data)];
      if err != HEAD {
        return -1, false, tail;
      }
      if data != stackaddr {
        var again := link.EraseFlash(goal);
        tail := tail + [Erased(again)];
        ExtendsTransitive(old(link.device.history), past, link.device.history, goal);
        return -1, false, tail;
      }
    }
    finalized := true;
  }

  /** What follows a complete write loop: the comparison, if asked for, and the head. */
  method Finish(link: Link, image: seq<byte>, start: int, verify: bool)
      returns (ret: int, finalized: bool, ghost tail: seq<Call>)
    requires link.device.Valid() && HEAD <= |image| && BodyWritten(link.device, start, image)
    modifies link`calls, link`log, link.device
    ensures link.device.Valid() && |link.device.memory| == |old(link.device.memory)|
    ensures Extends(old(link.device.history), link.device.history, Installed(|link.device.memory|, 0, image))
    ensures link.log == old(link.log) + tail
    ensures finalized ==> ret == HEAD && link.device.memory == Installed(|link.device.memory|, start, image)
    ensures finalized ==> Finishes(tail, start, image, verify)
    ensures !finalized ==> ret == -1 && FinishFailed(tail, start, image, verify)
    ensures link.Faultless() ==> finalized
  {
    ghost var checks: seq<Call> := [];
    if verify {
      var outcome;
      ghost var n;
      outcome, n := VerifyBody(link, image, start);
      checks := link.log[|old(link.log)|..];
      if outcome.Mismatched? {
        assert Verifies(checks, start, image, n, Mismatched);
        return -1, false, checks;
      }
    }
    assert link.log == old(link.log) + checks;
    ghost var last;
    ret, finalized, last := WriteHead(link, image, start, verify);
    tail := checks + last;
    ConcatAssociates(old(link.log), checks, last);
    assert tail[|checks|..] == last;
  }

  /** The part of updateOS after the attribute request: the write loop and what follows it, and an erase if a
      write of the loop failed. */
  method WriteImage(link: Link, image: seq<byte>, start: int, verify: bool, abort: nat -> bool)
      returns (ret: int, finalized: bool)
    requires link.device.Valid() && HEAD <= |image|
    requires link.device.memory == Blank(|link.device.memory|) && Fresh(link.device, 0, 0)
    modifies link`calls, link`log, link.device
    ensures link.device.Valid() && |link.device.memory| == |old(link.device.memory)|
    ensures Extends(old(link.device.history), link.device.history, Installed(|link.device.memory|, 0, image))
    ensures old(link.log) <= link.log
    ensures finalized ==> Suits(|link.device.memory|, start, image) && NeverAborts(abort, image)
    ensures finalized ==> ret == HEAD && link.device.memory == Installed(|link.device.memory|, start, image)
    ensures finalized ==> Installs(link.log[|old(link.log)|..], start, image, verify)
    ensures !finalized ==> Abandoned(link.log[|old(link.log)|..], start, image, verify, abort)
    ensures link.Faultless() && NeverAborts(abort, image) && Suits(|link.device.memory|, start, image) ==> finalized
  {
    finalized := false;
    ghost var goal, history, before := Installed(|link.device.memory|, 0, image), link.device.history, link.log;
    ghost var n: nat;
    ret, n := WriteBody(link, image, start, abort, goal);
    ghost var past, written := link.device.history, link.log;
    if ret == 0 {
      ghost var tail;
      ret, finalized, tail := Finish(link, image, start, verify);
      ExtendsTransitive(history, past, link.device.history, goal);
      AfterBody(before, link.log, start, image, verify, abort, n, tail);
    } else if ret < 0 {
      var _ := link.EraseFlash(goal);
      ExtendsTransitive(history, past, link.device.history, goal);
      AfterFailure(before, written, link.log, start, image, verify, abort, n);
    } else {
      AfterStop(before, link.log, start, image, verify, abort, n);
    }
  }

  lemma AfterBody(before: seq<Call>, log: seq<Call>, start: int, image: seq<byte>, verify: bool, abort: nat -> bool,
      n: nat, tail: seq<Call>)
    requires HEAD <= |image| && AllChunks(image, n) && NotStopped(abort, image, n)
    requires log == before + Writes(start, image, n) + tail
    ensures before <= log && NeverAborts(abort, image)
    ensures Finishes(tail, start, image, verify) ==> Installs(log[|before|..], start, image, verify)
    ensures FinishFailed(tail, start, image, verify) ==> Abandoned(log[|before|..], start, image, verify, abort)
  {
    var writes, calls := Writes(start, image, n), log[|before|..];
    ConcatAssociates(before, writes, tail);
    assert calls == writes + tail && calls[..n] == writes && calls[n..] == tail;
    if FinishFailed(tail, start, image, verify) {
      assert FinishFailedAfter(calls, start, image, verify, abort, n);
    }
    AllPassed(abort, image, n);
  }

  lemma AllPassed(abort: nat -> bool, image: seq<byte>, n: nat)
    requires AllChunks(image, n) && NotStopped(abort, image, n)
    ensures NeverAborts(abort, image)
  {
    forall k: nat | 1 <= k && HasChunks(image, k)
      ensures k <= n
    {
    }
  }

  lemma AfterFailure(before: seq<Call>, written: seq<Call>, log: seq<Call>, start: int, image: seq<byte>, verify: bool,
      abort: nat -> bool, n: nat)
    requires HEAD <= |image| && HasChunks(image, n) && NotStopped(abort, image, n)
    requires OneMoreFailed(written, before, start, image, n)
    requires |log| == |written| + 1 && written <= log && log[|written|].Erased?
    ensures before <= log && Abandoned(log[|before|..], start, image, verify, abort)
  {
    assert written == before + Writes(start, image, n) + [written[|written| - 1]];
    assert log[|before|..][..n] == Writes(start, image, n);
    assert FailedAfter(log[|before|..], start, image, abort, n);
  }

  lemma AfterStop(before: seq<Call>, log: seq<Call>, start: int, image: seq<byte>, verify: bool, abort: nat -> bool, n: nat)
    requires HEAD <= |image| && HasChunks(image, n) && StoppedAt(abort, image, n)
    requires log == before + Writes(start, image, n)
    ensures before <= log && Abandoned(log[|before|..], start, image, verify, abort) && !NeverAborts(abort, image)
  {
    assert log[|before|..] == Writes(start, image, n);
    assert StoppedAfter(log[|before|..], start, image, abort, n);
  }

  /** Link::updateOS. A host file that cannot be opened is None.

      Safety: whatever fails, every state the device passes through is unbootable or holds the complete image
      and nothing else. Success (statusMessage reaches "Finalizing...") puts the complete image where the
      device said programs start. Without faults, an image that fits is installed exactly when the progress
      callback does not ask to stop. An image that the device said goes elsewhere leaves it unbootable.

      Success took exactly the calls of Transcript, so with verify neither a chunk nor the head came
      back different, and failure took the calls of one of the ways in which Fails says an update can end. */
  method UpdateOS(link: Link, isBoot: bool, file: Option<seq<byte>>, verify: bool, abort: nat -> bool)
      returns (ret: int, finalized: bool)
    requires link.device.Valid() && (file.Some? ==> HEAD <= |file.value|)
    modifies link`calls, link`log, link.device
    ensures link.device.Valid() && |link.device.memory| == |old(link.device.memory)|
    ensures old(link.log) <= link.log
    ensures !isBoot ==> ret == -1 && link.device.history == old(link.device.history) && link.log == old(link.log)
    ensures file.Some? ==>
      Extends(old(link.device.history), link.device.history, Installed(|link.device.memory|, 0, file.value))
    ensures file.None? ==> Extends(old(link.device.history), link.device.history, Blank(|link.device.memory|))
    ensures isBoot && file.None? ==> exists err :: link.log == old(link.log) + [Erased(err)]
    ensures finalized ==> isBoot && file.Some? && ret == HEAD && 0 <= link.reported && NeverAborts(abort, file.value)
    ensures finalized ==> link.device.memory == Installed(|link.device.memory|, link.reported, file.value)
    ensures finalized ==> (Unbootable(link.device.memory) <==> link.reported != 0 || Unbootable(file.value))
    ensures finalized ==> Transcript(link.log[|old(link.log)|..], link.reported, file.value, verify)
    ensures !finalized && isBoot && file.Some? ==> Fails(link.log[|old(link.log)|..], link.reported, file.value, verify, abort)
    ensures isBoot && file.Some? && link.Faultless() && Suits(|link.device.memory|, link.reported, file.value) ==>
      (finalized <==> NeverAborts(abort, file.value))
  {
    finalized := false;
    if !isBoot {
      return -1, false;
    }
    ghost var goal := if file.Some? then Installed(|link.device.memory|, 0, file.value) else Blank(|link.device.memory|);
    ghost var history := link.device.history;
    ret := link.EraseFlash(goal);
    if ret < 0 || file.None? {
      return -1, false;
    }
    var start;
    ret, start := link.GetAttr();
    if ret < 0 {
      return ret, false;
    }
    ghost var past, attr := link.device.history, ret;
    ret, finalized := WriteImage(link, file.value, start, verify, abort);
    ExtendsTransitive(history, past, link.device.history, goal);
    Spliced(old(link.log), Erased(0), Attributes(attr), link.log);
    if finalized {
      InstalledElsewhere(|link.device.memory|, start, file.value);
    }
  }

  // ---------------------------------------------------------------- a device's life

  /** One attempt at an update and, if the power fails during it, after how many further states. */
  datatype Attempt = Attempt(
    file: Option<seq<byte>>, verify: bool, reported: int, faults: nat -> Fault, abort: nat -> bool, cut: bool, steps: nat)

  /** What the device started with, or one of the images in full and nothing else. */
  ghost predicate Complete(state: seq<byte>, initial: seq<byte>, attempts: seq<Attempt>) {
    || state == initial
    || exists j :: 0 <= j < |attempts| && attempts[j].file.Some? && state == Installed(|initial|, 0, attempts[j].file.value)
  }

  /** A state a device may be found in. */
  ghost predicate Accounted(state: seq<byte>, initial: seq<byte>, attempts: seq<Attempt>) {
    |state| == |initial| && (Unbootable(state) || Complete(state, initial, attempts))
  }

  ghost predicate AllAccounted(history: seq<seq<byte>>, initial: seq<byte>, attempts: seq<Attempt>) {
    forall k :: 0 <= k < |history| ==> Accounted(history[k], initial, attempts)
  }

  lemma OneMoreAttempt(before: seq<seq<byte>>, after: seq<seq<byte>>, initial: seq<byte>, attempts: seq<Attempt>,
      n: nat, goal: seq<byte>)
    requires n < |attempts| && AllAccounted(before, initial, attempts[..n]) && Extends(before, after, goal)
    requires |goal| == |initial|
    requires goal == match attempts[n].file case Some(image) => Installed(|initial|, 0, image) case None => Blank(|initial|)
    requires 4 <= |initial|
    ensures AllAccounted(after, initial, attempts[..n + 1])
  {
    var some := attempts[..n + 1];
    forall k | 0 <= k < |after|
      ensures Accounted(after[k], initial, some)
    {
      if k < |before| {
        assert after[k] == before[k];
        WiderAccount(before[k], initial, attempts, n);
      } else if !Unbootable(after[k]) {
        assert some[n] == attempts[n];
      }
    }
  }

  lemma WiderAccount(state: seq<byte>, initial: seq<byte>, attempts: seq<Attempt>, n: nat)
    requires n < |attempts| && Accounted(state, initial, attempts[..n])
    ensures Accounted(state, initial, attempts[..n + 1])
  {
    if !Unbootable(state) && state != initial {
      var j :| 0 <= j < n && attempts[..n][j].file.Some?
        && state == Installed(|initial|, 0, attempts[..n][j].file.value);
      assert attempts[..n + 1][j] == attempts[j];
    }
  }

  /** Any number of updates, each of which may fail or be cut short by a power loss at any step, followed by a
      reset: an application is entered exactly when the memory is not unbootable, the pin is high and nothing was
      requested, and that is only ever when the memory is what the device started with or holds one
      of the images completely. */
  method UpdatesThenReset(device: AppFlash, attempts: seq<Attempt>, boot: BootDecision, pinHigh: bool)
      returns (entered: bool, entry: nat)
    requires device.Valid() && device.history == [device.memory]
    requires forall j :: 0 <= j < |attempts| && attempts[j].file.Some? ==> HEAD <= |attempts[j].file.value|
    modifies device, boot
    ensures device.Valid() && AllAccounted(device.history, old(device.memory), attempts)
    ensures entered ==> Complete(device.memory, old(device.memory), attempts)
    ensures entered <==> !Unbootable(device.memory) && pinHigh && old(boot.request) != boot.swRequest
    ensures entered ==> entry == Word(device.memory, 4)
  {
    ghost var initial := device.memory;
    for n := 0 to |attempts|
      invariant device.Valid() && |device.memory| == |initial| && boot.request == old(boot.request)
      invariant AllAccounted(device.history, initial, attempts[..n])
    {
      var a := attempts[n];
      var link := new Link(device, a.faults, a.reported);
      ghost var before := device.history;
      var from := |device.history| - 1;
      var _, _ := UpdateOS(link, true, a.file, a.verify, a.abort);
      OneMoreAttempt(before, device.history, initial, attempts, n,
        match a.file case Some(image) => Installed(|initial|, 0, image) case None => Blank(|initial|));
      if a.cut && from + a.steps < |device.history| {
        assert Accounted(device.history[from + a.steps], initial, attempts[..n + 1]);
        device.PowerCut(from + a.steps);
      }
    }
    assert attempts[..|attempts|] == attempts;
    assert Accounted(device.memory, initial, attempts);
    entered, entry := boot.Start(device.memory, pinHigh);
  }
}
