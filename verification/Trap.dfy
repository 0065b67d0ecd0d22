/** The guard around window reads: a thread's armed range and the handler that
    decides what becomes of a bus fault. */
module Traps {
  import opened Kernel

  /** Why a signal arrived: an access faulted, a thread raised it, or else. */
  datatype Cause = Fault | Raised | OtherCause

  datatype Signal = Signal(cause: Cause, own: bool, addr: Addr)

  /** What the handler does: return to the access, jump to the recovery point,
      pass the signal to the earlier handler, or die of it. */
  datatype Verdict = Resume | Jump | Chain | Die

  /** `addr` lies in the armed range; a null pointer is an empty range. */
  predicate Covers(ptr: Addr, len: nat, addr: Addr) {
    ptr != 0 && ptr <= addr < ptr + len
  }

  class Trap {
    var armedPtr: Addr
    var armedLen: nat
    const chains: bool  // a handler was installed before this one

    constructor (chains: bool)
      ensures armedPtr == 0 && this.chains == chains
    {
      armedPtr, armedLen, this.chains := 0, 0, chains;
    }

    method Arm(ptr: Addr, len: nat)
      modifies this
      ensures armedPtr == ptr && armedLen == len
    {
      armedPtr, armedLen := ptr, len;
    }

    method Disarm()
      modifies this`armedPtr
      ensures armedPtr == 0
    {
      armedPtr := 0;
    }

    method Handle(s: Signal) returns (v: Verdict)
      modifies this`armedPtr
      ensures v == Resume <==> old(armedPtr) != 0 && s.cause == Raised && s.own
      ensures v == Jump <==> Covers(old(armedPtr), armedLen, s.addr) && !(s.cause == Raised && s.own)
      ensures v == Chain ==> chains
      ensures v == Die ==> !chains
      ensures armedPtr == if v == Jump then 0 else old(armedPtr)
    {
      if armedPtr != 0 && s.cause == Raised && s.own {
        return Resume;
      }
      var base := armedPtr;
      if base != 0 && s.addr >= base && s.addr < base + armedLen {
        armedPtr := 0;
        return Jump;
      }
      if chains {
        return Chain;
      }
      v := Die;
    }

    /** An access to `addr` faults. A handler installed later may restore this
        one and raise the signal again, any finite number of times, before the
        access faults into it. The guard recovers the fault exactly when it
        was armed for the address, and is then disarmed. */
    method Deliver(addr: Addr) returns (v: Verdict)
      modifies this`armedPtr
      ensures v == Jump <==> Covers(old(armedPtr), armedLen, addr)
      ensures v != Resume
      ensures armedPtr == if v == Jump then 0 else old(armedPtr)
    {
      var reraises: nat :| true;
      while reraises > 0
        invariant armedPtr == old(armedPtr)
      {
        v := Handle(Signal(Raised, true, 0));
        if v != Resume {
          return;
        }
        reraises := reraises - 1;
      }
      v := Handle(Signal(Fault, true, addr));
    }
  }
}
