/** The session handle every operation takes. */
module Sessions {
  import opened Errors

  const TT_OPEN_EXCL := 1
  const TT_OPEN_NONBLOCK := 2

  predicate Exclusive(flags: nat) {
    flags % 2 == 1
  }

  predicate Nonblocking(flags: nat) {
    flags / 2 % 2 == 1
  }

  /** No bits beyond the two open flags. */
  predicate KnownFlags(flags: nat) {
    flags <= TT_OPEN_EXCL + TT_OPEN_NONBLOCK
  }

  /** The flags one by one. */
  lemma FlagsMean(flags: nat)
    ensures KnownFlags(flags) <==> flags in {0, TT_OPEN_EXCL, TT_OPEN_NONBLOCK, TT_OPEN_EXCL + TT_OPEN_NONBLOCK}
    ensures KnownFlags(flags) ==> (Exclusive(flags) <==> flags in {TT_OPEN_EXCL, TT_OPEN_EXCL + TT_OPEN_NONBLOCK})
    ensures KnownFlags(flags) ==> (Nonblocking(flags) <==> flags in {TT_OPEN_NONBLOCK, TT_OPEN_EXCL + TT_OPEN_NONBLOCK})
  {
  }

  class Session {
    var dev: nat
    var fd: int
    var flags: nat

    constructor (dev: nat, fd: int, flags: nat)
      ensures this.dev == dev && this.fd == fd && this.flags == flags
    {
      this.dev, this.fd, this.flags := dev, fd, flags;
    }
  }
}
