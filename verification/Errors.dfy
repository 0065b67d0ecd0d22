/** Error reporting: the `TT_OK` / `TT_ERR` convention with the cause in the
    thread's `errno`, and the rewrite of `ENODEV` on session operations. */
module Errors {
  datatype Errno =
    | EINVAL | ENOTCONN | ENODEV | EAGAIN | ECONNRESET | EIO | ETIMEDOUT
    | ENOTSUP | EBUSY | ESRCH | EBADF
    | Other(code: nat)

  datatype Code = TT_OK | TT_ERR

  datatype Option<+T> = None | Some(value: T) {
    function GetOr(default: T): T {
      if Some? then value else default
    }
  }

  datatype Result<+T> = Ok(value: T) | Err(errno: Errno)

  const U32_MOD := 0x1_0000_0000

  type Word = x: nat | x < U32_MOD

  /** A 32-bit counter's increment. */
  lemma ModStep(x: nat)
    ensures (x % U32_MOD + 1) % U32_MOD == (x + 1) % U32_MOD
  {
  }

  /** What a session operation reports for the driver's `e`: `ENODEV` on an
      open session can only mean that the session was severed. */
  function Normalize(e: Errno): (r: Errno)
    ensures r != ENODEV
    ensures r != e <==> e == ENODEV
    ensures r == ECONNRESET <==> e in {ENODEV, ECONNRESET}
  {
    if e == ENODEV then ECONNRESET else e
  }

  /** A thread of the calling process, as far as the library writes to it. */
  class Thread {
    var errno: Errno

    constructor ()
      ensures errno == Other(0)
    {
      errno := Other(0);
    }

    method Fail(e: Errno) returns (r: Code)
      modifies this
      ensures r == TT_ERR && errno == e
    {
      errno := e;
      r := TT_ERR;
    }

    method FailIo(e: Errno) returns (r: Code)
      modifies this
      ensures r == TT_ERR && errno == Normalize(e)
    {
      r := Fail(Normalize(e));
    }
  }
}
