/**
  Value-level parts of the shell-FD registry (redir.c:116-214): the floor
  `shellfdmin` computed from `sysconf(_SC_OPEN_MAX)`, and the behaviour of
  `add_shellfd` as written for descriptors beyond the bitmap.
*/
module ShellFd {
  import opened Kernel

  /** SHELLFDMINMAX: the largest `shellfdmin` (redir.c:128-132). */
  const ShellFdMinMax: int := 100

  /**
    The answer of `sysconf(_SC_OPEN_MAX)`: the `long` it returns and
    whether it left `errno` non-zero.
  */
  datatype SysconfReply = SysconfReply(value: int, errnoSet: bool)

  /** Storing a `long` into a 32-bit `int` (two's complement wrap-around). */
  function ToCInt(v: int): (r: int)
    ensures IntMin <= r <= IntMax
    ensures IntMin <= v <= IntMax ==> r == v
    ensures (r - v) % 0x1_0000_0000 == 0
  {
    var m := v % 0x1_0000_0000;
    if m > IntMax then m - 0x1_0000_0000 else m
  }

  /** C's `v / 2`, which truncates toward zero. */
  function CHalf(v: int): (r: int)
    ensures v >= 0 ==> v - 1 <= 2 * r <= v
    ensures v < 0 ==> v <= 2 * r <= v + 1
  {
    if v >= 0 then v / 2 else -((-v) / 2)
  }

  /** `reset_shellfdmin`: the floor for new shell FDs. */
  function ShellFdMinFor(reply: SysconfReply): (r: int)
    ensures 10 <= r <= ShellFdMinMax
    ensures ToCInt(reply.value) == -1 ==> r == (if reply.errnoSet then 10 else ShellFdMinMax)
    ensures ToCInt(reply.value) != -1 && 20 <= ToCInt(reply.value) <= 2 * ShellFdMinMax + 1
            ==> r == ToCInt(reply.value) / 2
    ensures ToCInt(reply.value) != -1 && ToCInt(reply.value) > 2 * ShellFdMinMax + 1 ==> r == ShellFdMinMax
    ensures ToCInt(reply.value) != -1 && ToCInt(reply.value) < 20 ==> r == 10
  {
    var v := ToCInt(reply.value);
    if v == -1 then
      (if reply.errnoSet then 10 else ShellFdMinMax)
    else
      var half := CHalf(v);
      if half > ShellFdMinMax then ShellFdMinMax
      else if half < 10 then 10
      else half
  }

  /**
    A limit whose value does not fit an `int` wraps: 2^32 + 64 descriptors
    give the floor 32, not SHELLFDMINMAX.
  */
  lemma LargeLimitWraps()
    ensures ShellFdMinFor(SysconfReply(0x1_0000_0000 + 64, false)) == 32
  {
  }

  /** `shellfdmax` after `add_shellfd(fd)` as written (redir.c:177-178). */
  function MaxAfterAddAsWritten(max: int, fd: int): int
  {
    if max < fd then fd else max
  }

  /** Whether `clear_shellfds` tests position `i` with `FD_ISSET` (redir.c:207-209). */
  predicate ClearProbes(max: int, i: int)
  {
    0 <= i <= max
  }

  /**
    As written, registering FD_SETSIZE in an empty registry sets
    `shellfdmax` to FD_SETSIZE, so `clear_shellfds` then tests a position
    one past the end of the bitmap.
  */
  lemma AddAsWrittenProbesPastBitmap()
    ensures MaxAfterAddAsWritten(-1, FdSetSize) == FdSetSize
    ensures ClearProbes(MaxAfterAddAsWritten(-1, FdSetSize), FdSetSize)
  {
  }
}
