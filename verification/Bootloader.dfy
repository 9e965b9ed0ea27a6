/** The bootloader's choice, at reset, between the application and its own update loop. */
module Bootloader {
  import opened Bytes
  import opened BootFlash
  import opened VectorChecksum

  class BootDecision {
    /** The value that software leaves in the request word to ask for the bootloader. */
    const swRequest: nat
    var stackPtr: nat
    var appReset: nat
    /** The request word, which survives a reset. */
    var request: nat

    constructor (swRequest: nat, request: nat)
      ensures this.swRequest == swRequest && this.request == request
    {
      this.swRequest := swRequest;
      this.request := request;
      stackPtr, appReset := 0, 0;
    }

    /** check_run_app: refusing the application also withdraws the software request. */
    method CheckRunApp(pinHigh: bool) returns (run: bool)
      modifies this`request
      ensures run <==> stackPtr != NO_PROGRAM && pinHigh && old(request) != swRequest
      ensures request == if run then old(request) else 0
    {
      if stackPtr == 0xFFFF_FFFF {
        request := 0;
        return false;
      }
      if !pinHigh {
        request := 0;
        return false;
      }
      if request == swRequest {
        request := 0;
        return false;
      }
      run := true;
    }

    /** _main: Some is the address control is passed to, None is the update loop. An application is only
        entered from memory that is not unbootable, and then at its own reset vector; a board whose pin is high
        and without a pending request enters every application there is. */
    method Start(memory: seq<byte>, pinHigh: bool) returns (entered: bool, entry: nat)
      requires |memory| >= MIN_WRITE
      modifies this
      ensures entered <==> !Unbootable(memory) && pinHigh && old(request) != swRequest
      ensures entered ==> entry == Word(memory, 4) && request == old(request)
      ensures !entered ==> request == 0
    {
      stackPtr := Word(memory, 0);
      appReset := Word(memory, 4);
      UnbootableIffErasedWord(memory);
      entered := CheckRunApp(pinHigh);
      entry := appReset;
    }
  }

  /** Asking for the bootloader in software works once: the reset after it starts the application again. */
  method TwoResets(b: BootDecision, memory: seq<byte>) returns (first: bool, second: bool)
    requires |memory| >= MIN_WRITE && b.request == b.swRequest != 0 && !Unbootable(memory)
    modifies b
    ensures !first && second
  {
    var entry;
    first, entry := b.Start(memory, true);
    second, entry := b.Start(memory, true);
  }
}
