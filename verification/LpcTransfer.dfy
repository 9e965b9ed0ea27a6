/** The stop-and-wait sender that moves a block of memory to an LPC device over its serial bootloader.

    Data goes out as UU-encoded lines. After twenty lines, or after a line that is not full, the sender
    states the byte sum of the block and waits for OK; on anything else it goes back to the last verified
    byte, and after three rejections in a row it gives up.
 */
module LpcTransfer {
  import opened Bytes
  import opened UuCode

  const LINES_PER_BLOCK: nat := 20
  const BLOCK: nat := 900
  const MAX_RETRY: nat := 3
  const SEND_BUFFER: nat := 1024

  /** What happens to one exchange with the device: it goes well, the device does not answer OK, or the
      serial port fails. */
  datatype Outcome = Good | Reject | Break

  /** One checksum exchange: where the block starts, its lines, the sum stated, and the answer. */
  datatype Attempt = Attempt(offset: nat, lines: seq<seq<byte>>, sum: nat, ok: bool)

  /** The bytes carried by a sequence of lines. */
  function Contents(lines: seq<seq<byte>>): seq<byte> {
    if lines == [] then []
    else
      var last := lines[|lines| - 1];
      Contents(lines[..|lines| - 1]) + (if WellFormed(last) then Payload(last) else [])
  }

  function ByteSum(s: seq<byte>): (sum: nat)
    ensures sum <= 255 * |s|
  {
    if s == [] then 0 else ByteSum(s[..|s| - 1]) + s[|s| - 1]
  }

  /** The lines are those of the pieces of 45 bytes that the block is cut into, in order, the last piece being as
      long as it may be. No bytes make up no line or one. */
  ghost predicate Framed(lines: seq<seq<byte>>, block: seq<byte>)
    decreases |lines|
  {
    if lines == [] then block == []
    else
      var full := MAX_LINE * (|lines| - 1);
      && full <= |block| <= full + MAX_LINE && (|lines| > 1 ==> full < |block|)
      && lines[|lines| - 1] == Line(block[full..]) && Framed(lines[..|lines| - 1], block[..full])
  }

  /** One more line, after full ones. */
  lemma FrameNext(lines: seq<seq<byte>>, block: seq<byte>, s: seq<byte>)
    requires Framed(lines, block) && |block| == MAX_LINE * |lines| && |s| <= MAX_LINE && (s == [] ==> lines == [])
    ensures Framed(lines + [Line(s)], block + s)
  {
    var more, all := lines + [Line(s)], block + s;
    assert more[..|more| - 1] == lines && all[..|block|] == block && all[|block|..] == s;
  }

  /** An attempt carries a stretch of the source as it is, in lines of 45 bytes, and states its byte sum. */
  ghost predicate Faithful(src: seq<byte>, a: Attempt) {
    var block := Contents(a.lines);
    && a.offset + |block| <= |src|
    && block == src[a.offset..a.offset + |block|]
    && a.sum == ByteSum(block) < 0x1_0000_0000
    && a.lines != [] && Framed(a.lines, block)
  }

  function Attempts(log: seq<Attempt>, offset: nat): nat {
    if log == [] then 0
    else Attempts(log[..|log| - 1], offset) + if log[|log| - 1].offset == offset then 1 else 0
  }

  /** How often the block at offset may have been tried when the next block starts at verified and has been
      rejected retry times; once the source is exhausted there is no next block. */
  function Tries(size: nat, verified: nat, retry: nat, offset: nat): nat {
    if offset < verified || offset == verified == size then MAX_RETRY else if offset == verified then retry else 0
  }

  /** Everything the device acknowledged, in order. */
  function Acknowledged(log: seq<Attempt>): seq<byte> {
    if log == [] then []
    else Acknowledged(log[..|log| - 1]) + if log[|log| - 1].ok then Contents(log[|log| - 1].lines) else []
  }

  /** How much of a source of n bytes the sender has acknowledged when it reports success: a last block of
      full lines is not followed by a checksum unless it has twenty of them. */
  function Covered(n: nat): nat {
    if n % MAX_LINE == 0 then n - n % BLOCK else n
  }

  lemma CoveredIffChecked(n: nat)
    ensures Covered(n) <= n
    ensures Covered(n) == n <==> (n % MAX_LINE != 0 || n % BLOCK == 0)
  {
  }

  lemma ContentsNext(lines: seq<seq<byte>>, s: seq<byte>)
    requires |s| < 64
    ensures Contents(lines + [Line(s)]) == Contents(lines) + s
  {
    PayloadOfLine(s, Line(s));
    assert (lines + [Line(s)])[..|lines|] == lines;
  }

  lemma ByteSumNext(s: seq<byte>, b: byte)
    ensures ByteSum(s + [b]) == ByteSum(s) + b
  {
    assert (s + [b])[..|s|] == s;
  }

  lemma SliceNext(src: seq<byte>, from: nat, to: nat)
    requires from <= to < |src|
    ensures src[from..to + 1] == src[from..to] + [src[to]]
  {
  }

  lemma SliceJoin(src: seq<byte>, a: nat, b: nat, c: nat)
    requires a <= b <= c <= |src|
    ensures src[a..b] + src[b..c] == src[a..c]
  {
  }

  lemma AttemptsNext(log: seq<Attempt>, a: Attempt, offset: nat)
    ensures Attempts(log + [a], offset) == Attempts(log, offset) + if a.offset == offset then 1 else 0
  {
    assert (log + [a])[..|log|] == log;
  }

  lemma AcknowledgedNext(log: seq<Attempt>, a: Attempt)
    ensures Acknowledged(log + [a]) == Acknowledged(log) + if a.ok then Contents(a.lines) else []
  {
    assert (log + [a])[..|log|] == log;
  }

  /** The last n attempts were all rejections of the block at offset. */
  ghost predicate Rejected(log: seq<Attempt>, offset: nat, n: nat) {
    n <= |log| && forall k :: |log| - n <= k < |log| ==> !log[k].ok && log[k].offset == offset
  }

  ghost predicate AllFaithful(src: seq<byte>, log: seq<Attempt>) {
    forall a :: a in log ==> Faithful(src, a)
  }

  ghost predicate WithinTries(log: seq<Attempt>, size: nat, verified: nat, retry: nat) {
    forall o: nat :: Attempts(log, o) <= Tries(size, verified, retry, o)
  }

  ghost predicate Progress(src: seq<byte>, memory: seq<byte>, log: seq<Attempt>, verified: nat, retry: nat) {
    && verified <= |src| && retry <= MAX_RETRY && memory == src[..verified] && memory == Acknowledged(log)
    && AllFaithful(src, log) && WithinTries(log, |src|, verified, retry) && Rejected(log, verified, retry)
  }

  /** A block in progress: its lines are exactly the source from verified to written. */
  ghost predicate InProgress(lines: seq<seq<byte>>, src: seq<byte>, verified: nat, written: nat, checksum: nat) {
    && verified <= written <= |src| && written - verified <= BLOCK
    && Contents(lines) == src[verified..written] && checksum == ByteSum(src[verified..written])
  }

  /** The lines of a block in progress are those of its pieces. */
  lemma FrameGrows(lines: seq<seq<byte>>, more: seq<seq<byte>>, src: seq<byte>, verified: nat, written: nat, next: nat)
    requires verified <= written <= next <= |src| && Framed(lines, src[verified..written])
    requires written - verified == MAX_LINE * |lines| && next - written <= MAX_LINE && (next == written ==> lines == [])
    requires more == lines + [Line(src[written..next])]
    ensures more != [] && Framed(more, src[verified..next])
  {
    SliceJoin(src, verified, written, next);
    FrameNext(lines, src[verified..written], src[written..next]);
  }

  lemma LineJoins(lines: seq<seq<byte>>, src: seq<byte>, verified: nat, written: nat, checksum: nat, size: nat, sum: nat)
    requires InProgress(lines, src, verified, written, checksum) && written - verified <= BLOCK - MAX_LINE
    requires size == Min(MAX_LINE, |src| - written) && sum == ByteSum(src[verified..written + size])
    ensures InProgress(lines + [Line(src[written..written + size])], src, verified, written + size, sum)
  {
    var block, data := src[verified..written], src[written..written + size];
    assert block + data == src[verified..written + size] by {
      SliceJoin(src, verified, written, written + size);
    }
    ContentsNext(lines, data);
  }

  /** One transfer: the device's side of it and the serial port, driven by a script of outcomes. */
  class Session {
    const script: nat -> Outcome
    var exchanges: nat
    var pending: seq<seq<byte>>
    var memory: seq<byte>
    var broken: bool
    ghost var log: seq<Attempt>

    constructor (script: nat -> Outcome)
      ensures this.script == script && exchanges == 0 && pending == [] && memory == [] && !broken && log == []
    {
      this.script := script;
      exchanges, pending, memory, broken, log := 0, [], [], false, [];
    }

    ghost predicate AllGood() {
      forall i: nat :: script(i) == Good
    }

    method SendLine(text: seq<byte>) returns (sent: bool)
      modifies this`exchanges, this`pending, this`broken
      ensures AllGood() ==> sent
      ensures sent ==> pending == old(pending) + [text] && broken == old(broken)
      ensures !sent ==> pending == old(pending) && broken
    {
      var outcome := script(exchanges);
      exchanges := exchanges + 1;
      sent := outcome != Break;
      if sent {
        pending := pending + [text];
      } else {
        broken := true;
      }
    }

    /** States the sum of the pending block; on OK the device keeps the block, otherwise it drops it. */
    method SendChecksum(ghost offset: nat, sum: nat) returns (sent: bool, ok: bool)
      modifies this
      ensures AllGood() ==> sent && ok
      ensures !sent ==> broken && !ok && log == old(log) && memory == old(memory)
      ensures sent ==> broken == old(broken) && pending == []
      ensures sent ==> log == old(log) + [Attempt(offset, old(pending), sum, ok)]
      ensures sent ==> memory == old(memory) + if ok then Contents(old(pending)) else []
    {
      var outcome := script(exchanges);
      exchanges := exchanges + 1;
      sent := outcome != Break;
      ok := outcome == Good;
      if sent {
        log := log + [Attempt(offset, pending, sum, ok)];
        if ok {
          memory := memory + Contents(pending);
        }
        pending := [];
      } else {
        broken := true;
      }
    }

    method Flush() returns (flushed: bool)
      modifies this`exchanges, this`broken
      ensures broken == (old(broken) || !flushed)
    {
      flushed := script(exchanges) != Break;
      exchanges := exchanges + 1;
      if !flushed {
        broken := true;
      }
    }

    /** What every transfer keeps: the device holds a prefix of the source, which is what it acknowledged;
        every attempt was faithful and no block was tried more than three times. */
    ghost predicate Sound(src: seq<byte>)
      reads this`memory, this`log
    {
      && memory <= src && memory == Acknowledged(log)
      && AllFaithful(src, log)
      && (forall o: nat :: Attempts(log, o) <= MAX_RETRY)
    }

    /** The attempts so far, when the next block starts at verified and was rejected retry times. */
    ghost predicate Logged(src: seq<byte>, verified: nat, retry: nat)
      reads this`memory, this`log
    {
      Progress(src, memory, log, verified, retry)
    }

    ghost predicate Block(src: seq<byte>, verified: nat, written: nat, checksum: nat)
      reads this`pending
    {
      InProgress(pending, src, verified, written, checksum)
    }

    /** Sends the line at written: its bytes join the checksum and its text goes out. */
    method SendNext(src: seq<byte>, ghost verified: nat, written: nat, checksum: nat)
        returns (sent: bool, size: nat, sum: nat)
      requires Block(src, verified, written, checksum) && written - verified <= BLOCK - MAX_LINE
      modifies this`exchanges, this`pending, this`broken
      ensures size == Min(MAX_LINE, |src| - written)
      ensures AllGood() ==> sent
      ensures !sent ==> broken
      ensures sent ==> broken == old(broken) && Block(src, verified, written + size, sum)
      ensures sent ==> pending == old(pending) + [Line(src[written..written + size])]
    {
      size := if |src| - written < MAX_LINE then |src| - written else MAX_LINE;
      sum := AddUp(src, verified, written, size, checksum);
      var text := EncodeText(src[written..written + size]);
      LineJoins(pending, src, verified, written, checksum, size, sum);
      sent := SendLine(text);
    }

    /** Offers the block with its checksum; the attempt, accepted or not, goes on record. */
    method TryBlock(src: seq<byte>, ghost verified: nat, ghost written: nat, checksum: nat, ghost retry: nat)
        returns (sent: bool, ok: bool)
      requires Block(src, verified, written, checksum) && retry < MAX_RETRY && Logged(src, verified, retry)
      requires pending != [] && Framed(pending, src[verified..written])
      requires verified < written || (written == |src| && log == [])
      modifies this
      ensures AllGood() ==> sent && ok
      ensures !sent ==> broken && memory == old(memory) && log == old(log)
      ensures sent ==> broken == old(broken) && pending == []
      ensures sent && ok ==> Logged(src, written, 0)
      ensures sent && !ok ==> Logged(src, verified, retry + 1)
    {
      AttemptRecorded(src, memory, log, Attempt(verified, pending, checksum, true), verified, written, retry);
      AttemptRecorded(src, memory, log, Attempt(verified, pending, checksum, false), verified, written, retry);
      sent, ok := SendChecksum(verified, checksum);
    }

    /** Ends the block with its checksum. A rejected block leaves verified where it was. */
    method EndBlock(src: seq<byte>, verified: nat, written: nat, checksum: nat, retry: nat)
        returns (failed: bool, verified': nat, retry': nat)
      requires Block(src, verified, written, checksum) && retry < MAX_RETRY && Logged(src, verified, retry)
      requires pending != [] && Framed(pending, src[verified..written])
      requires verified < written || (written == |src| && log == [])
      modifies this
      ensures AllGood() ==> !failed
      ensures failed ==> Sound(src) && (broken || Rejected(log, verified, MAX_RETRY))
      ensures !failed ==> broken == old(broken) && retry' < MAX_RETRY
      ensures !failed ==> Logged(src, verified', retry') && Block(src, verified', verified', 0) && pending == []
      ensures !failed ==> (verified' == written && retry' == 0) || (verified' == verified && retry' == retry + 1)
    {
      verified', retry' := verified, retry;
      LoggedIsSound(src, verified, retry);
      var sent, ok := TryBlock(src, verified, written, checksum, retry);
      if !sent {
        return true, verified, retry;
      }
      if !ok {
        LoggedIsSound(src, verified, retry + 1);
        var flushed := Flush();
        if !flushed {
          return true, verified, retry;
        }
        retry' := retry + 1;
        if retry' == MAX_RETRY {
          return true, verified, retry';
        }
      } else {
        verified', retry' := written, 0;
      }
      failed := false;
    }

    lemma LoggedIsSound(src: seq<byte>, verified: nat, retry: nat)
      requires Logged(src, verified, retry)
      ensures Sound(src)
    {
    }
  }

  lemma BlockIsFaithful(src: seq<byte>, a: Attempt, written: nat)
    requires a.offset <= written <= |src| && written - a.offset <= BLOCK
    requires Contents(a.lines) == src[a.offset..written] && a.sum == ByteSum(src[a.offset..written])
    requires a.lines != [] && Framed(a.lines, src[a.offset..written])
    ensures Faithful(src, a)
  {
  }

  lemma FaithfulNext(src: seq<byte>, log: seq<Attempt>, a: Attempt)
    requires AllFaithful(src, log) && Faithful(src, a)
    ensures AllFaithful(src, log + [a])
  {
  }

  /** One more try of the block at verified, seen from one offset. The next block starts at next. */
  lemma TriesNext(size: nat, verified: nat, next: nat, retry: nat, o: nat)
    requires verified < next <= size && retry < MAX_RETRY
    ensures var tries := Tries(size, verified, retry, o) + if o == verified then 1 else 0;
      tries <= Tries(size, verified, retry + 1, o) && tries <= Tries(size, next, 0, o)
  {
  }

  lemma TriesStayWithin(log: seq<Attempt>, a: Attempt, size: nat, verified: nat, written: nat, retry: nat)
    requires verified <= written <= size && (verified < written || (written == size && log == []))
    requires retry < MAX_RETRY && a.offset == verified && WithinTries(log, size, verified, retry)
    ensures WithinTries(log + [a], size, verified, retry + 1) && WithinTries(log + [a], size, written, 0)
  {
    forall o: nat
      ensures Attempts(log + [a], o) <= Tries(size, verified, retry + 1, o)
      ensures Attempts(log + [a], o) <= Tries(size, written, 0, o)
    {
      AttemptsNext(log, a, o);
      if verified < written {
        TriesNext(size, verified, written, retry, o);
      }
    }
  }

  lemma RejectedNext(log: seq<Attempt>, a: Attempt, n: nat)
    requires Rejected(log, a.offset, n) && !a.ok
    ensures Rejected(log + [a], a.offset, n + 1)
  {
  }

  /** Recording one attempt at the block [verified, written) keeps the counts, and an accepted attempt
      extends what was acknowledged by exactly that block. */
  lemma AttemptRecorded(src: seq<byte>, memory: seq<byte>, log: seq<Attempt>, a: Attempt, verified: nat, written: nat, retry: nat)
    requires verified <= written <= |src| && written - verified <= BLOCK && retry < MAX_RETRY
    requires a.offset == verified && Contents(a.lines) == src[verified..written]
    requires a.sum == ByteSum(src[verified..written]) && a.lines != [] && Framed(a.lines, src[verified..written])
    requires verified < written || (written == |src| && log == [])
    requires Progress(src, memory, log, verified, retry)
    ensures Faithful(src, a)
    ensures !a.ok ==> Progress(src, memory, log + [a], verified, retry + 1)
    ensures a.ok ==> Progress(src, memory + Contents(a.lines), log + [a], written, 0)
  {
    BlockIsFaithful(src, a, written);
    FaithfulNext(src, log, a);
    AcknowledgedNext(log, a);
    SliceJoin(src, 0, verified, written);
    TriesStayWithin(log, a, |src|, verified, written, retry);
    if !a.ok {
      RejectedNext(log, a, retry);
    }
  }

  /** Full blocks start at multiples of 900, this one after `blocks` of them, and only an incomplete line can end
      the source between them. */
  ghost predicate AtBoundary(size: nat, verified: nat, written: nat, line: nat, blocks: nat) {
    || (verified == BLOCK * blocks && written == verified + MAX_LINE * line)
    || (verified == written == size && line == 0 && Ragged(size))
  }

  /** A source of this size does not end with a full line. */
  ghost predicate Ragged(size: nat) {
    if size < MAX_LINE then size > 0 else Ragged(size - MAX_LINE)
  }

  lemma {:induction false} RaggedIff(size: nat)
    ensures Ragged(size) <==> size % MAX_LINE != 0
  {
    if size >= MAX_LINE {
      RaggedIff(size - MAX_LINE);
    }
  }

  lemma BoundaryKept(size: nat, verified: nat, written: nat, line: nat, blocks: nat, step: nat)
    requires AtBoundary(size, verified, written, line, blocks) && (written < size || size == 0)
    requires line < LINES_PER_BLOCK && step == Min(MAX_LINE, size - written)
    ensures step == MAX_LINE && line + 1 < LINES_PER_BLOCK ==> AtBoundary(size, verified, written + step, line + 1, blocks)
    ensures step == MAX_LINE && line + 1 == LINES_PER_BLOCK ==> AtBoundary(size, written + step, written + step, 0, blocks + 1)
    ensures step != MAX_LINE ==> AtBoundary(size, written + step, written + step, 0, blocks)
    ensures AtBoundary(size, verified, verified, 0, blocks)
  {
    if 0 < step < MAX_LINE {
      Remainder(20 * blocks + line, step, MAX_LINE);
      RaggedIff(size);
    }
  }

  /** Whether a line of `step` bytes is the last one of its block. */
  predicate EndsBlock(line: nat, step: int) { line + 1 == LINES_PER_BLOCK || step != MAX_LINE }

  /** Where one more line of `step` bytes leads: on in the block, or to the end of it, which, accepted or not, is
      a boundary. */
  lemma OneMoreLine(size: nat, verified: nat, written: nat, line: nat, blocks: nat, step: nat) returns (after: nat)
    requires AtBoundary(size, verified, written, line, blocks) && (written < size || size == 0)
    requires line < LINES_PER_BLOCK && written <= size && step == Min(MAX_LINE, size - written)
    ensures written - verified == MAX_LINE * line <= BLOCK - MAX_LINE && (step == 0 ==> line == 0)
    ensures !EndsBlock(line, step) ==>
      AtBoundary(size, verified, written + step, line + 1, blocks) && line + 1 < LINES_PER_BLOCK && step > 0
    ensures EndsBlock(line, step) ==>
      AtBoundary(size, verified, verified, 0, blocks) && AtBoundary(size, written + step, written + step, 0, after)
    ensures EndsBlock(line, step) ==> verified < written + step || (size == 0 && written + step == 0)
  {
    BoundaryKept(size, verified, written, line, blocks, step);
    after := if step != MAX_LINE then blocks else blocks + 1;
  }

  lemma BoundaryCovers(size: nat, verified: nat, line: nat, blocks: nat)
    requires AtBoundary(size, verified, size, line, blocks) && line < LINES_PER_BLOCK
    ensures Covered(size) == verified
  {
    RaggedIff(size);
    if verified == BLOCK * blocks && size == verified + MAX_LINE * line {
      Remainder(20 * blocks + line, 0, MAX_LINE);
      Remainder(blocks, MAX_LINE * line, BLOCK);
    }
  }

  lemma Remainder(q: nat, r: nat, m: nat)
    requires r < m
    ensures (m * q + r) % m == r
  {
    var n := m * q + r;
    assert n == m * (n / m) + n % m;
    assert m * (q + 1) == m * q + m && m * (n / m + 1) == m * (n / m) + m;
    Bytes.Below(m, q, n / m + 1);
    Bytes.Below(m, n / m, q + 1);
  }

  /** The inner loop over the bytes of a line. */
  method AddUp(src: seq<byte>, ghost verified: nat, written: nat, size: nat, checksum: nat) returns (sum: nat)
    requires verified <= written && written + size <= |src| && checksum == ByteSum(src[verified..written])
    ensures sum == ByteSum(src[verified..written + size])
  {
    sum := checksum;
    for i := 0 to size
      invariant sum == ByteSum(src[verified..written + i])
    {
      SliceNext(src, verified, written + i);
      ByteSumNext(src[verified..written + i], src[written + i]);
      sum := sum + src[written + i];
    }
  }

  /** The text of one line, built in the sender's buffer and cut at its terminating zero. */
  method EncodeText(data: seq<byte>) returns (text: seq<byte>)
    requires |data| <= MAX_LINE
    ensures text == Line(data)
  {
    var buf := new byte[SEND_BUFFER];
    var length := EncodeLine(buf, data);
    text := buf[..length];
    assert text == buf[..length + 1][..length];
  }

  /** The state of the sender between two lines: where the block in progress starts and how far it goes, how many
      lines it has, its byte sum, and how often it was rejected. */
  ghost predicate Sending(session: Session, src: seq<byte>, verified: nat, written: nat, line: nat, checksum: nat,
      retry: nat, blocks: nat)
    reads session
  {
    && retry < MAX_RETRY && session.Logged(src, verified, retry) && InBlock(session, src, verified, written, line, checksum, blocks)
    && Framed(session.pending, src[verified..written])
  }

  ghost predicate InBlock(session: Session, src: seq<byte>, verified: nat, written: nat, line: nat, checksum: nat, blocks: nat)
    reads session`broken, session`pending
  {
    && line < LINES_PER_BLOCK && !session.broken && |session.pending| == line
    && session.Block(src, verified, written, checksum) && AtBoundary(|src|, verified, written, line, blocks)
  }

  /** One pass of the loop: a line and, after the last line of a block, the checksum. */
  method SendAndCheck(session: Session, src: seq<byte>, verified: nat, written: nat, line: nat, checksum: nat, retry: nat,
      ghost blocks: nat)
      returns (failed: bool, verified': nat, written': nat, line': nat, checksum': nat, retry': nat, ghost blocks': nat)
    requires Sending(session, src, verified, written, line, checksum, retry, blocks)
    requires written < |src| || (|src| == 0 && session.log == [])
    modifies session
    ensures failed ==> session.Sound(src) && (session.broken || Rejected(session.log, verified, MAX_RETRY))
    ensures session.AllGood() ==> !failed
    ensures !failed ==> Sending(session, src, verified', written', line', checksum', retry', blocks')
    ensures !failed ==> verified' >= verified && (verified' == verified ==>
      retry' > retry || (retry' == retry && (written' > written || written' == |src|)))
  {
    session.LoggedIsSound(src, verified, retry);
    ghost var lines := session.pending;
    var sent, last, next, sum;
    ghost var after;
    sent, last, next, sum, after := SendOne(session, src, verified, written, line, checksum, blocks);
    if !sent {
      return true, verified, written, line, checksum, retry, blocks;
    }
    FrameGrows(lines, session.pending, src, verified, written, next);
    if !last {
      return false, verified, next, line + 1, sum, retry, blocks;
    }
    line', checksum' := 0, 0;
    failed, verified', retry', blocks' := CheckBlock(session, src, verified, next, sum, retry, blocks, after);
    written' := verified';
  }

  /** The line at written, after which the block ends if it has twenty lines or this one is not full. */
  method SendOne(session: Session, src: seq<byte>, ghost verified: nat, written: nat, line: nat, checksum: nat, ghost blocks: nat)
      returns (sent: bool, last: bool, next: nat, sum: nat, ghost after: nat)
    requires InBlock(session, src, verified, written, line, checksum, blocks) && (written < |src| || |src| == 0)
    modifies session`exchanges, session`pending, session`broken
    ensures session.AllGood() ==> sent
    ensures !sent ==> session.broken
    ensures sent ==> session.Block(src, verified, next, sum) && !session.broken
    ensures written <= next <= |src| && (sent ==> session.pending == old(session.pending) + [Line(src[written..next])])
    ensures written - verified == MAX_LINE * line && (next == written ==> line == 0)
    ensures next == written + Min(MAX_LINE, |src| - written) && (last <==> EndsBlock(line, Min(MAX_LINE, |src| - written)))
    ensures sent && !last ==> InBlock(session, src, verified, next, line + 1, sum, blocks) && written < next
    ensures last ==> AtBoundary(|src|, verified, verified, 0, blocks) && AtBoundary(|src|, next, next, 0, after)
    ensures last ==> verified < next || (|src| == 0 && next == 0)
  {
    after := OneMoreLine(|src|, verified, written, line, blocks, Min(MAX_LINE, |src| - written));
    var size;
    sent, size, sum := session.SendNext(src, verified, written, checksum);
    next := written + size;
    last := EndsBlock(line, size);
  }

  /** The end of a block. The next one starts after `blocks` full ones if it is rejected, and after `after` of them
      if it is accepted. */
  method CheckBlock(session: Session, src: seq<byte>, verified: nat, written: nat, checksum: nat, retry: nat,
      ghost blocks: nat, ghost after: nat)
      returns (failed: bool, verified': nat, retry': nat, ghost blocks': nat)
    requires AtBoundary(|src|, verified, verified, 0, blocks) && AtBoundary(|src|, written, written, 0, after)
    requires verified < written || (written == |src| && session.log == [])
    requires session.Block(src, verified, written, checksum) && !session.broken
    requires session.pending != [] && Framed(session.pending, src[verified..written])
    requires retry < MAX_RETRY && session.Logged(src, verified, retry)
    modifies session
    ensures failed ==> session.Sound(src) && (session.broken || Rejected(session.log, verified, MAX_RETRY))
    ensures session.AllGood() ==> !failed
    ensures !failed ==> Sending(session, src, verified', verified', 0, 0, retry', blocks')
    ensures !failed ==> verified' == written || (verified' == verified && retry' > retry)
  {
    failed, verified', retry' := session.EndBlock(src, verified, written, checksum, retry);
    blocks' := if verified' == written then after else blocks;
  }

  /** LpcPhy::lpc_write_data. Success means the device holds the covered part of the source and nothing else, and
      that the lines of the rest have gone out; failure is either a broken port or three rejections of one block in
      a row. */
  method WriteData(session: Session, src: seq<byte>) returns (result: int)
    requires session.pending == [] && session.memory == [] && session.log == [] && !session.broken
    requires |src| < 0x8000_0000
    modifies session
    ensures session.Sound(src)
    ensures result == |src| || result == -1
    ensures result == |src| ==> session.memory == src[..Covered(|src|)] && !session.broken
    ensures result == |src| ==> Framed(session.pending, src[Covered(|src|)..])
    ensures session.AllGood() ==> result == |src|
    ensures result == -1 ==> session.broken || exists o: nat :: Rejected(session.log, o, MAX_RETRY)
  {
    var written: nat, verified: nat, line: nat, checksum: nat, retry: nat := 0, 0, 0, 0, 0;
    ghost var blocks: nat := 0;
    var more := true;
    while more
      invariant Sending(session, src, verified, written, line, checksum, retry, blocks)
      invariant if more then written < |src| || (|src| == 0 && session.log == []) else written == |src|
      decreases |src| - verified, MAX_RETRY - retry, |src| - written, more
    {
      var failed;
      failed, verified, written, line, checksum, retry, blocks :=
        SendAndCheck(session, src, verified, written, line, checksum, retry, blocks);
      if failed {
        return -1;
      }
      more := written < |src|;
    }
    session.LoggedIsSound(src, verified, retry);
    BoundaryCovers(|src|, verified, line, blocks);
    assert src[verified..written] == src[verified..];
    result := written;
  }
}
