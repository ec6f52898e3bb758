/**
  The abstract kernel the redirection engine talks to: a per-process table
  from small non-negative descriptor numbers to open-file descriptions, with
  the allocation rule POSIX gives `open`, `dup`, `fcntl(F_DUPFD)` and `pipe`
  (the lowest free number at or above a floor, below the process limit).
*/
module Kernel {
  import opened Wrappers

  /** FD_SETSIZE: the number of bits in an `fd_set`. */
  const FdSetSize: int := 1024
  /** PIPE_BUF: the largest write a pipe takes atomically (the Linux value). */
  const PipeBuf: int := 4096
  /** INT_MAX and INT_MIN of a 32-bit C `int`. */
  const IntMax: int := 0x7fff_ffff
  const IntMin: int := -0x8000_0000

  /** The access mode of an open-file description (`flags & O_ACCMODE`). */
  datatype Access = ReadOnly | WriteOnly | ReadWrite

  predicate Readable(a: Access) { a == ReadOnly || a == ReadWrite }
  predicate Writable(a: Access) { a == WriteOnly || a == ReadWrite }

  /** What an open-file description refers to. */
  datatype Obj =
    | DevNull
    | File(id: nat)
    | TempFile(id: nat)
    | PipeRead(pipe: nat)
    | PipeWrite(pipe: nat)

  datatype Desc = Desc(obj: Obj, access: Access)

  /** The descriptor table of the shell process. */
  type Table = map<int, Desc>

  /** The `errno` values the engine distinguishes. */
  datatype Errno = EBADF | EMFILE | EINVAL

  /** Every descriptor of `t` is a legal number below the process limit. */
  ghost predicate InRange(t: Table, limit: int)
  {
    forall fd :: fd in t ==> 0 <= fd < limit
  }

  /** The lowest descriptor number `>= from` and `< limit` that `t` leaves free. */
  function LowestFree(t: Table, from: int, limit: int): (r: Option<int>)
    requires 0 <= from
    decreases limit - from
    ensures r.Some? ==> from <= r.value < limit && r.value !in t
    ensures r.Some? ==> forall k :: from <= k < r.value ==> k in t
    ensures r.None? ==> forall k :: from <= k < limit ==> k in t
  {
    if from >= limit then None
    else if from !in t then Some(from)
    else LowestFree(t, from + 1, limit)
  }

  /**
    Whether `pipe` finds its two descriptors in `t`: the lowest free one,
    and the lowest free one above it.
  */
  predicate TwoFree(t: Table, limit: int)
  {
    LowestFree(t, 0, limit).Some? && LowestFree(t, LowestFree(t, 0, limit).value + 1, limit).Some?
  }

  /** The free descriptors at or above `from` and below `limit`. */
  ghost function FreeFrom(t: Table, from: int, limit: int): set<int>
  {
    set k | from <= k < limit && k !in t
  }

  /** The search finds nothing exactly when no descriptor in its range is free. */
  lemma LowestFreeNone(t: Table, from: int, limit: int)
    requires 0 <= from
    ensures LowestFree(t, from, limit).None? <==> FreeFrom(t, from, limit) == {}
  {
    if LowestFree(t, from, limit).Some? {
      assert LowestFree(t, from, limit).value in FreeFrom(t, from, limit);
    }
  }

  /**
    Searching `t'` from `lo` finds what searching `t` from `hi` finds when
    `t'` fills every number in between and agrees with `t` on which numbers
    from `hi` on are taken.
  */
  lemma {:induction false} LowestFreeSkips(t: Table, t': Table, lo: int, hi: int, limit: int)
    requires 0 <= lo <= hi
    requires forall k :: lo <= k < hi ==> k in t'
    requires forall k :: hi <= k ==> (k in t' <==> k in t)
    ensures LowestFree(t', lo, limit) == LowestFree(t, hi, limit)
    decreases limit - lo
  {
    if lo >= limit {
    } else if lo < hi {
      LowestFreeSkips(t, t', lo + 1, hi, limit);
    } else if lo in t' {
      LowestFreeSkips(t, t', lo + 1, lo + 1, limit);
    }
  }

  /**
    Opening descriptors only among `x` leaves at most `|x|` fewer free
    descriptors in any range.
  */
  lemma FreeShrinksBy(t: Table, t': Table, x: set<int>, from: int, limit: int)
    requires t'.Keys <= t.Keys + x
    ensures |FreeFrom(t', from, limit)| + |x| >= |FreeFrom(t, from, limit)|
  {
    var a, b := FreeFrom(t, from, limit) - x, FreeFrom(t', from, limit);
    assert a <= b;
    assert b == a + (b - a);
  }

  /**
    Every descriptor open in `t` outside `changed` is still open in `t'`
    and still refers to the same open-file description.
  */
  ghost predicate Keeps(t: Table, t': Table, changed: set<int>)
  {
    forall x :: x in t && x !in changed ==> x in t' && t'[x] == t[x]
  }

  /**
    Two steps that each keep every descriptor outside their own set keep
    every descriptor outside both, and numbers `t` does not have open can
    be dropped from the set.
  */
  lemma KeepsTrans(t: Table, t': Table, t'': Table, a: set<int>, b: set<int>, c: set<int>)
    requires Keeps(t, t', a) && Keeps(t', t'', b)
    requires (a + b) * t.Keys <= c
    ensures Keeps(t, t'', c)
  {
    forall x | x in t && x !in c
      ensures x in t'' && t''[x] == t[x]
    {
      assert x !in a + b;
    }
  }

  /** Whether `dup2(oldfd, newfd)` succeeds once `newfd` has been closed first. */
  predicate Dup2Succeeds(t: Table, oldfd: int, newfd: int, limit: int)
  {
    oldfd in t && oldfd != newfd && 0 <= newfd < limit
  }

  /**
    The table after `xclose(newfd)` followed by `dup2(oldfd, newfd)`: the
    target is always closed first, and it refers to `oldfd`'s description
    exactly when the duplication succeeds.
  */
  function Dup2(t: Table, oldfd: int, newfd: int, limit: int): (r: Table)
    ensures r - {newfd} == t - {newfd}
    ensures newfd in r <==> Dup2Succeeds(t, oldfd, newfd, limit)
    ensures newfd in r ==> r[newfd] == t[oldfd]
  {
    var closed := t - {newfd};
    if oldfd in closed && 0 <= newfd < limit then closed[newfd := t[oldfd]] else closed
  }
}
