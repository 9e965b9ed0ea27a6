/** The application flash behind the bootloader, and the bootloader's own decision to start it.

    Offsets are relative to PROGRAM_START_ADDR, which is where the first erasable page starts. Erasing a page
    and programming 256 bytes are the atomic operations; `history` records the memory after each of them, and
    power may fail at any point of it.
 */
module BootFlash {
  import opened Bytes
  import opened FlashCells
  import opened VectorChecksum

  const MIN_WRITE: nat := 256
  const NO_PROGRAM: nat := 0xFFFF_FFFF

  /** The word at the start address is the erased one, which the bootloader takes for "no program". */
  predicate Unbootable(memory: seq<byte>) {
    |memory| >= 4 && memory[0] == memory[1] == memory[2] == memory[3] == ERASED
  }

  lemma UnbootableIffErasedWord(memory: seq<byte>)
    requires |memory| >= 4
    ensures Unbootable(memory) <==> Word(memory, 0) == NO_PROGRAM
  {
  }

  /** Every state of a history from some point on is either unbootable or the goal. */
  ghost predicate SafeFrom(history: seq<seq<byte>>, from: nat, goal: seq<byte>) {
    forall k :: from <= k < |history| ==> |history[k]| == |goal| && (Unbootable(history[k]) || history[k] == goal)
  }

  /** A history that was extended safely. */
  ghost predicate Extends(before: seq<seq<byte>>, after: seq<seq<byte>>, goal: seq<byte>) {
    before <= after && SafeFrom(after, |before|, goal)
  }

  lemma ExtendsTransitive(a: seq<seq<byte>>, b: seq<seq<byte>>, c: seq<seq<byte>>, goal: seq<byte>)
    requires Extends(a, b, goal) && Extends(b, c, goal)
    ensures Extends(a, c, goal)
  {
    forall k | |a| <= k < |c|
      ensures |c[k]| == |goal| && (Unbootable(c[k]) || c[k] == goal)
    {
      if k < |b| { assert c[k] == b[k]; }
    }
  }

  lemma ExtendsByOne(a: seq<seq<byte>>, b: seq<seq<byte>>, state: seq<byte>, goal: seq<byte>)
    requires Extends(a, b, goal) && |state| == |goal| && (Unbootable(state) || state == goal)
    ensures Extends(a, b + [state], goal)
  {
  }

  class AppFlash {
    /** Pages below this number hold the bootloader and cannot be erased. */
    const bootPages: nat
    /** Where each application page starts, and where the last one ends. */
    const bounds: seq<nat>
    var memory: seq<byte>
    var history: seq<seq<byte>>
    /** The bytes that have been programmed with something other than 0xFF since they were last erased. */
    ghost var burned: set<int>

    ghost predicate Shape() {
      && |bounds| >= 2 && bounds[0] == 0 && MIN_WRITE <= bounds[1]
      && forall i, j :: 0 <= i < j < |bounds| ==> bounds[i] < bounds[j]
    }

    ghost predicate Valid()
      reads this
    {
      && Shape() && |memory| == bounds[|bounds| - 1]
      && history != [] && history[|history| - 1] == memory
    }

    /** Power is lost after the k-th state on record; nothing is known any more about what was programmed. */
    method PowerCut(k: nat)
      requires Shape() && k < |history| && |history[k]| == bounds[|bounds| - 1]
      modifies this
      ensures Valid() && memory == old(history)[k] && history == old(history)[..k + 1]
    {
      memory := history[k];
      history := history[..k + 1];
      burned := *;
    }

    /** flash_erasepage: zero, and the page erased, for application pages; nonzero for any other number. */
    method ErasePage(page: nat) returns (ret: int)
      requires Valid()
      modifies this
      ensures Valid() && |memory| == |old(memory)|
      ensures ret == 0 <==> bootPages <= page < bootPages + |bounds| - 1
      ensures ret == 0 ==> memory == Erase(old(memory), bounds[page - bootPages], bounds[page - bootPages + 1])
      ensures ret == 0 ==> history == old(history) + [memory]
      ensures ret == 0 ==> forall i :: i in burned ==>
        i in old(burned) && !(bounds[page - bootPages] <= i < bounds[page - bootPages + 1])
      ensures ret != 0 ==> memory == old(memory) && history == old(history) && burned == old(burned)
    {
      if !(bootPages <= page < bootPages + |bounds| - 1) {
        return -1;
      }
      var from, to := bounds[page - bootPages], bounds[page - bootPages + 1];
      memory := Erase(memory, from, to);
      history := history + [memory];
      burned := set i | i in burned && !(from <= i < to);
      ret := 0;
    }

    /** erase_flash: skips the pages it may not erase, then erases in ascending order until a page fails. The
        first page erased is the one with the start address, so every state on the way is unbootable. */
    method EraseFlash(ghost goal: seq<byte>)
      requires Valid() && |goal| == |memory|
      modifies this
      ensures Valid() && memory == Blank(|old(memory)|)
      ensures forall i :: i in burned ==> !(0 <= i < |memory|)
      ensures Extends(old(history), history, goal)
    {
      var page := 0;
      var ret := -1;
      while ret != 0
        invariant Valid() && |memory| == |goal| && 0 <= page <= bootPages + (if ret == 0 then 1 else 0)
        invariant ret != 0 ==> memory == old(memory) && history == old(history)
        invariant ret == 0 ==> page == bootPages + 1 && Cleared(old(memory), bounds[1])
        invariant Extends(old(history), history, goal)
        decreases bootPages + 1 - page, ret != 0
      {
        ret := ErasePage(page);
        if ret == 0 {
          FirstPageErased(old(memory), memory, goal, old(history));
        }
        page := page + 1;
      }
      while ret == 0
        invariant Valid() && |memory| == |goal| && bootPages + 1 <= page
        invariant ret == 0 ==> page <= bootPages + |bounds| - 1 && Cleared(old(memory), bounds[page - bootPages])
        invariant ret != 0 ==> Cleared(old(memory), |old(memory)|)
        invariant Extends(old(history), history, goal)
        decreases bootPages + |bounds| - page, ret == 0
      {
        ghost var before := history;
        ret := ErasePage(page);
        if ret == 0 {
          ExtendsByOne(old(history), before, memory, goal);
        }
        page := page + 1;
      }
    }

    /** The first n bytes have been erased and the rest are as they were. */
    ghost predicate Cleared(before: seq<byte>, n: nat)
      reads this
    {
      && memory == Erase(before, 0, n)
      && forall i :: i in burned ==> !(0 <= i < n)
    }

    lemma FirstPageErased(before: seq<byte>, after: seq<byte>, goal: seq<byte>, past: seq<seq<byte>>)
      requires Shape() && |before| == |goal| >= bounds[1] && after == Erase(before, bounds[0], bounds[1])
      ensures Unbootable(after) && Extends(past, past + [after], goal)
    {
    }

    predicate Accepts(at: int, size: nat)
      reads this`memory
    {
      0 <= at && at % MIN_WRITE == 0 && at + size <= |memory|
    }

    /** Flash must not be programmed twice between erases. */
    ghost predicate WriteOnce(at: int, data: seq<byte>)
      reads this`burned
    {
      forall i :: Programs(at, data, i) ==> i !in burned
    }

    /** Programming data here cannot make the memory bootable, or it makes it the goal in one unit. */
    ghost predicate Harmless(at: int, data: seq<byte>, goal: seq<byte>)
      reads this`memory
    {
      && Unbootable(memory)
      && (LeavesFirstWord(at, data) || (|data| <= MIN_WRITE && 0 <= at && at + |data| <= |memory| && Burn(memory, at, data) == goal))
    }

    /** Programs one unit of at most 256 bytes, data[from..to], when the part before it is already there. */
    method ProgramUnit(at: nat, data: seq<byte>, from: nat, to: nat, ghost first: seq<byte>)
      requires Valid() && at + |data| <= |memory| == |first| && from <= to <= |data| && to - from <= MIN_WRITE
      requires memory == Burn(first, at, data[..from])
      requires forall i :: Programs(at, data, i) && at + from <= i ==> i !in burned
      modifies this
      ensures Valid() && memory == Burn(first, at, data[..to])
      ensures history == old(history) + [memory]
      ensures forall i :: i in burned ==> i in old(burned) || (Programs(at, data, i) && i < at + to)
    {
      BurnMore(first, at, data, from, to - from);
      memory := Burn(memory, at + from, data[from..to]);
      history := history + [memory];
      burned := burned + set k | from <= k < to && data[k] != ERASED :: at + k;
    }

    /** Programs the next unit of data that cannot make flash bootable, or makes it the goal. */
    method NextUnit(at: nat, data: seq<byte>, done: nat,
        ghost first: seq<byte>, ghost origin: seq<seq<byte>>, ghost goal: seq<byte>)
        returns (next: nat)
      requires Valid() && at + |data| <= |memory| == |first| == |goal|
      requires done < |data| && (done > 0 ==> done >= MIN_WRITE) && memory == Burn(first, at, data[..done])
      requires Unbootable(first) && Extends(origin, history, goal)
      requires LeavesFirstWord(at, data) || (|data| <= MIN_WRITE && Burn(first, at, data) == goal)
      requires forall i :: Programs(at, data, i) && at + done <= i ==> i !in burned
      modifies this
      ensures Valid() && next == done + Min(MIN_WRITE, |data| - done)
      ensures memory == Burn(first, at, data[..next])
      ensures Extends(origin, history, goal)
      ensures forall i :: i in burned ==> i in old(burned) || (Programs(at, data, i) && i < at + next)
    {
      var size := Min(MIN_WRITE, |data| - done);
      next := done + size;
      ExtendsByUnit(first, at, data, done, size, origin, history, goal);
      ProgramUnit(at, data, done, next, first);
    }

    /** flash_writepage: refuses what is unaligned or outside the application flash, and otherwise programs
        the data unit by unit; only `units` of them if the power or the device fails there. */
    method WritePage(at: int, data: seq<byte>, units: nat, ghost goal: seq<byte>) returns (ok: bool, done: nat)
      requires Valid() && |goal| == |memory| && (Accepts(at, |data|) ==> WriteOnce(at, data) && Harmless(at, data, goal))
      modifies this
      ensures Valid() && |memory| == |old(memory)| && done <= |data|
      ensures done > 0 || ok ==> old(Accepts(at, |data|))
      ensures done > 0 || ok ==> memory == Burn(old(memory), at, data[..done])
      ensures done == 0 ==> memory == old(memory)
      ensures forall i :: i in burned ==> i in old(burned) || Programs(at, data, i)
      ensures Extends(old(history), history, goal)
      ensures ok ==> done == |data|
      ensures old(Accepts(at, |data|)) && |data| <= MIN_WRITE * units ==> ok
    {
      done := 0;
      if !Accepts(at, |data|) {
        return false, 0;
      }
      ghost var first := memory;
      BurnNothing(first, at, data);
      var left := units;
      while done < |data| && left > 0
        invariant Valid() && done <= |data| && left <= units
        invariant done == |data| || done == MIN_WRITE * (units - left)
        invariant |memory| == |first| && memory == Burn(first, at, data[..done])
        invariant forall i :: i in burned ==> i in old(burned) || (Programs(at, data, i) && i < at + done)
        invariant Extends(old(history), history, goal)
      {
        done := NextUnit(at, data, done, first, old(history), goal);
        left := left - 1;
      }
      ok := done == |data|;
    }
  }

  /** The byte at address i is programmed with something other than 0xFF. */
  ghost predicate Programs(at: int, data: seq<byte>, i: int) {
    at <= i < at + |data| && data[i - at] != ERASED
  }

  ghost predicate LeavesFirstWord(at: int, data: seq<byte>) {
    forall i :: 0 <= i < |data| && at + i < 4 ==> data[i] == ERASED
  }

  lemma BurnNothing(memory: seq<byte>, at: nat, data: seq<byte>)
    requires at + |data| <= |memory|
    ensures Burn(memory, at, data[..0]) == memory
  {
  }

  lemma BurnMore(memory: seq<byte>, at: nat, data: seq<byte>, done: nat, size: nat)
    requires at + |data| <= |memory| && done + size <= |data|
    ensures Burn(Burn(memory, at, data[..done]), at + done, data[done..done + size]) == Burn(memory, at, data[..done + size])
  {
  }

  /** After any unit the memory is unbootable, or the data was one unit and the memory is the goal. */
  lemma UnitIsHarmless(first: seq<byte>, at: nat, data: seq<byte>, done: nat, size: nat, goal: seq<byte>)
    requires at + |data| <= |first| && done + size <= |data| && Unbootable(first)
    requires size == Min(MIN_WRITE, |data| - done) && (done > 0 ==> done >= MIN_WRITE)
    requires LeavesFirstWord(at, data) || (|data| <= MIN_WRITE && Burn(first, at, data) == goal)
    ensures var after := Burn(first, at, data[..done + size]);
      (Unbootable(after) || (after == goal && done + size == |data|))
  {
    if LeavesFirstWord(at, data) {
      var part := data[..done + size];
      BurnAt(first, at, part, 0);
      BurnAt(first, at, part, 1);
      BurnAt(first, at, part, 2);
      BurnAt(first, at, part, 3);
    } else {
      assert data[..done + size] == data;
    }
  }

  lemma ExtendsByUnit(first: seq<byte>, at: nat, data: seq<byte>, done: nat, size: nat,
      origin: seq<seq<byte>>, past: seq<seq<byte>>, goal: seq<byte>)
    requires at + |data| <= |first| == |goal| && done + size <= |data| && Unbootable(first)
    requires size == Min(MIN_WRITE, |data| - done) && (done > 0 ==> done >= MIN_WRITE)
    requires LeavesFirstWord(at, data) || (|data| <= MIN_WRITE && Burn(first, at, data) == goal)
    requires Extends(origin, past, goal)
    ensures Extends(origin, past + [Burn(first, at, data[..done + size])], goal)
  {
    UnitIsHarmless(first, at, data, done, size, goal);
    ExtendsByOne(origin, past, Burn(first, at, data[..done + size]), goal);
  }
}
