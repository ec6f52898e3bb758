/**
  The redirection engine of redir.c as one object: the process's
  descriptor table (the kernel side), the shell-FD registry
  (`shellfds`, `shellfdmin`, `shellfdmax`, `ttyfd`), the
  `is_stdin_redirected` flag, and the operations that open, undo and
  commit a command's redirections.
*/
module Redir {
  import opened Wrappers
  import opened Kernel
  import opened ShellFd
  import opened Transaction
  import opened FdNumber
  import opened Redirection
  import opened Writing

  /** For a here-document or here-string, the `write` answers bring its text to an end. */
  ghost predicate WritesSettle(kind: RedirKind, e: Env)
  {
    (kind == Here || kind == HereRaw || kind == HereStr) && e.expanded.Some? ==>
      Settles(e.writes, |HereText(e.expanded.value, kind == HereStr)|)
  }

  /** Whether some item of `rs` has descriptor 0 as its target. */
  function TargetsStdin(rs: seq<Redir>): (b: bool)
    ensures b <==> exists i :: 0 <= i < |rs| && rs[i].fd == 0
  {
    rs != [] && (rs[|rs| - 1].fd == 0 || TargetsStdin(rs[..|rs| - 1]))
  }

  /** One more item targets descriptor 0 exactly when the item itself does or an earlier one did. */
  lemma TargetsStdinStep(rs: seq<Redir>, n: nat)
    requires n < |rs|
    ensures TargetsStdin(rs[..n + 1]) == (TargetsStdin(rs[..n]) || rs[n].fd == 0)
  {
    assert rs[..n + 1][..n] == rs[..n];
  }

  /**
    One step of `save_fd` with a save list, on values: the state after it
    and the record pushed, or `None` when the copy fails for a reason other
    than EBADF.
  */
  function SaveStep(s: FdState, fd: int, floor: int, limit: int): Option<(FdState, SaveEntry)>
    requires 0 <= floor
  {
    if fd !in s.fds then Some((s, SaveEntry(fd, -1, s.stdinRedirected)))
    else match LowestFree(s.fds, floor, limit)
      case None => None
      case Some(c) => Some((AfterSave(s, fd, true, floor, limit), SaveEntry(fd, c, s.stdinRedirected)))
  }

  /**
    A `rd>>|input` item as redir.c is written (lines 342, 385, 668-691 and
    413-419), on the path where every call succeeds and the pipe's ends
    are given numbers other than `input` and `rd`: the state after the item
    and the records it pushed, newest first. `None` stands for every other
    path. Unlike `Shell.ParseAndExecPipe`, nothing stops the copy of
    `input` from taking the number `rd`.
  */
  function PipeItemAsWritten(s: FdState, rd: int, input: int, floor: int, limit: int, p: nat)
    : Option<(FdState, seq<SaveEntry>)>
    requires 0 <= floor
  {
    match SaveStep(s, rd, floor, limit)
    case None => None
    case Some((s1, e1)) =>
      match SaveStep(s1, input, floor, limit)
      case None => None
      case Some((s2, e2)) =>
        match LowestFree(s2.fds, 0, limit)
        case None => None
        case Some(r) =>
          match LowestFree(s2.fds, r + 1, limit)
          case None => None
          case Some(w) =>
            if r == input || w == input || w == rd || !(0 <= input < limit) || !(0 <= rd < limit) then None
            else
              var t := s2.fds[r := Desc(PipeRead(p), ReadOnly)][w := Desc(PipeWrite(p), WriteOnly)];
              var t1 := Dup2(t, r, input, limit) - {r};
              var t2 := Dup2(t1, w, rd, limit) - {w};
              Some((FdState(t2, s2.reg, s2.stdinRedirected || rd == 0), [e2, e1]))
  }

  /**
    As written, `cmd 100>>|5` with descriptor 5 open, 100 free and
    `shellfdmin` 100 saves 5 into descriptor 100, which the write end then
    replaces; undoing the item leaves the pipe's write end at 5 instead of
    the original file.
  */
  lemma PipeCopyClobberedAsWritten()
    ensures var s := FdState(map[5 := Desc(File(1), ReadOnly)], {}, false);
            var r := PipeItemAsWritten(s, 100, 5, 100, 1024, 0);
            && r.Some?
            && r.value.1 == [SaveEntry(5, 100, false), SaveEntry(100, -1, false)]
            && 5 in Undo(r.value.0, r.value.1, 1024).fds
            && Undo(r.value.0, r.value.1, 1024).fds[5] == Desc(PipeWrite(0), WriteOnly)
            && Undo(r.value.0, r.value.1, 1024).fds != s.fds
  {
    PipeItemClobbers();
    PipeItemUndone();
    assert Desc(PipeWrite(0), WriteOnly) != Desc(File(1), ReadOnly);
  }

  /** Undoing the records of `PipeCopyClobberedAsWritten` from the state the item leaves. */
  lemma PipeItemUndone()
    ensures Undo(FdState(map[5 := Desc(PipeRead(0), ReadOnly), 100 := Desc(PipeWrite(0), WriteOnly)], {100}, false),
                 [SaveEntry(5, 100, false), SaveEntry(100, -1, false)], 1024).fds
         == map[5 := Desc(PipeWrite(0), WriteOnly)]
  {
    var wd := Desc(PipeWrite(0), WriteOnly);
    var after := FdState(map[5 := Desc(PipeRead(0), ReadOnly), 100 := wd], {100}, false);
    var save := [SaveEntry(5, 100, false), SaveEntry(100, -1, false)];
    var u1 := UndoEntry(after, save[0], 1024);
    assert u1.fds == map[5 := wd];
    assert Undo(after, save, 1024) == Undo(u1, save[1..], 1024);
    assert UndoEntry(u1, save[1], 1024).fds == map[5 := wd];
    assert save[1..][1..] == [];
  }

  /** The two saves of the item of `PipeCopyClobberedAsWritten`: 100 is free, 5 is copied into 100. */
  lemma PipeItemSaves()
    ensures var s := FdState(map[5 := Desc(File(1), ReadOnly)], {}, false);
            && SaveStep(s, 100, 100, 1024) == Some((s, SaveEntry(100, -1, false)))
            && SaveStep(s, 5, 100, 1024)
               == Some((FdState(map[5 := Desc(File(1), ReadOnly), 100 := Desc(File(1), ReadOnly)], {100}, false),
                        SaveEntry(5, 100, false)))
  {
    var f := Desc(File(1), ReadOnly);
    var s := FdState(map[5 := f], {}, false);
    assert LowestFree(s.fds, 100, 1024) == Some(100);
    var s2 := FdState(map[5 := f, 100 := f], {100}, false);
    assert s.fds[100 := s.fds[5]] == s2.fds;
    assert s.reg + {100} == s2.reg;
    assert AfterSave(s, 5, true, 100, 1024) == s2;
  }

  /** The pipe of the item of `PipeCopyClobberedAsWritten`: its ends take 0 and 1 and move to 5 and 100. */
  lemma PipeItemPlumbs()
    ensures var f := Desc(File(1), ReadOnly);
            var t := map[5 := f, 100 := f];
            && LowestFree(t, 0, 1024) == Some(0)
            && LowestFree(t, 1, 1024) == Some(1)
            && Dup2(Dup2(t[0 := Desc(PipeRead(0), ReadOnly)][1 := Desc(PipeWrite(0), WriteOnly)], 0, 5, 1024) - {0},
                    1, 100, 1024) - {1}
               == map[5 := Desc(PipeRead(0), ReadOnly), 100 := Desc(PipeWrite(0), WriteOnly)]
  {
    var f := Desc(File(1), ReadOnly);
    var rdd := Desc(PipeRead(0), ReadOnly);
    var wd := Desc(PipeWrite(0), WriteOnly);
    var t := map[5 := f, 100 := f][0 := rdd][1 := wd];
    assert Dup2(t, 0, 5, 1024) - {0} == map[1 := wd, 5 := rdd, 100 := f];
    assert Dup2(map[1 := wd, 5 := rdd, 100 := f], 1, 100, 1024) - {1} == map[5 := rdd, 100 := wd];
  }

  /** The state and the records the item of `PipeCopyClobberedAsWritten` leaves. */
  lemma PipeItemClobbers()
    ensures PipeItemAsWritten(FdState(map[5 := Desc(File(1), ReadOnly)], {}, false), 100, 5, 100, 1024, 0)
         == Some((FdState(map[5 := Desc(PipeRead(0), ReadOnly), 100 := Desc(PipeWrite(0), WriteOnly)], {100}, false),
                  [SaveEntry(5, 100, false), SaveEntry(100, -1, false)]))
  {
    PipeItemSaves();
    PipeItemPlumbs();
  }

  /** The input descriptor a `>>|` item names, as a set: empty for other kinds and for a malformed number. */
  function PipeInput(r: Redir, e: Env): (s: set<int>)
    ensures |s| <= 1
  {
    if r.kind == Pipe && e.expanded.Some? && ParseFdNumber(e.expanded.value).Some?
    then {ParseFdNumber(e.expanded.value).value} else {}
  }

  /** The copy `parse_and_exec_pipe` may make of a `>>|` item's input descriptor in the state `s`. */
  function PipeCopy(s: FdState, r: Redir, e: Env, keep: bool, floor: int, limit: int): (cs: set<int>)
    requires 0 <= floor
    ensures |cs| <= 1
  {
    if r.kind == Pipe && e.expanded.Some? && ParseFdNumber(e.expanded.value).Some?
    then CopySet(s.fds, ParseFdNumber(e.expanded.value).value, keep, floor, limit) else {}
  }

  /**
    Whether the pipe of `parse_and_exec_pipe` can be set up in `t`: `pipe`
    finds two descriptors, a write end that took the number `input` finds a
    third to move to, and `input` is a legal number for the read end.
  */
  predicate PipeFits(t: Table, input: int, limit: int)
  {
    && TwoFree(t, limit) && input < limit
    && var w := LowestFree(t, LowestFree(t, 0, limit).value + 1, limit).value;
       (w == input ==> LowestFree(t, w + 1, limit).Some?)
  }

  /**
    Whether `open_herestring` opens a descriptor in `t`: /dev/null for an
    empty text without newline, a pipe for a text of at most PIPE_BUF
    bytes, or else a temporary file.
  */
  predicate HereOpens(t: Table, s: seq<char>, appendNewline: bool, e: Env, limit: int)
  {
    || (s == [] && !appendNewline && e.devNull && LowestFree(t, 0, limit).Some?)
    || (|HereText(s, appendNewline)| <= PipeBuf && TwoFree(t, limit))
    || (e.tempFile.Some? && LowestFree(t, 0, limit).Some?)
  }

  /**
    Whether a kind that opens a new descriptor opens one in `t`: a file
    (redir.c:348-375), a here-document or here-string (redir.c:391-403) or
    a process redirection (redir.c:404-409).
  */
  predicate FreshOpens(t: Table, r: Redir, e: Env, opts: Options, limit: int)
  {
    match r.kind
    case Input | Output | Clobber | Append | InOut =>
      OpenSucceeds(FlagsFor(r.kind, opts.noclobber, e.status == Irregular), e.status, e.permitted)
      && LowestFree(t, 0, limit).Some?
    case Here | HereRaw => e.expanded.Some? && HereOpens(t, e.expanded.value, false, e, limit)
    case HereStr => e.expanded.Some? && HereOpens(t, e.expanded.value, true, e, limit)
    case ProcIn | ProcOut => e.forks && TwoFree(t, limit)
    case DupIn | DupOut | Pipe => false
  }

  /**
    Whether an item succeeds from the state `s` once its target has been
    checked and saved: its kind opens a descriptor (redir.c:345-410) and the
    move into place works (redir.c:413-422). Every kind but `<&-` and a
    duplication onto itself needs the target below the process limit.
  */
  ghost predicate ItemSucceeds(s: FdState, r: Redir, e: Env, opts: Options, keep: bool, floor: int, limit: int)
    requires 0 <= floor
  {
    match r.kind
    case DupIn | DupOut =>
      && e.expanded.Some?
      && (e.expanded.value != "-" ==>
            && ParseFdNumber(e.expanded.value).Some?
            && var v := ParseFdNumber(e.expanded.value).value;
               && v < FdSetSize && v !in s.reg
               && (opts.posixlyCorrect ==>
                     v in s.fds && if r.kind == DupIn then Readable(s.fds[v].access) else Writable(s.fds[v].access))
               && (v == r.fd || (v in s.fds && r.fd < limit)))
    case Pipe =>
      && e.expanded.Some? && ParseFdNumber(e.expanded.value).Some?
      && var input := ParseFdNumber(e.expanded.value).value;
         && input != r.fd && input < FdSetSize && input !in s.reg
         && SavedCopy(s.fds, input, keep, floor, limit) != Some(r.fd)
         && PipeFits(AfterSave(s, input, keep, floor, limit).fds, input, limit)
         && r.fd < limit
    case _ => FreshOpens(s.fds, r, e, opts, limit) && r.fd < limit
  }

  /**
    Whether one item of `open_redirections` succeeds from the state `s`:
    the target is a legal descriptor that is not a shell FD, the filename
    expands, and after the target is saved the item succeeds.
  */
  ghost predicate ItemOk(s: FdState, r: Redir, e: Env, opts: Options, keep: bool, floor: int, limit: int)
    requires 0 <= floor
  {
    && 0 <= r.fd < FdSetSize && r.fd !in s.reg
    && !(r.kind.ExpandsFilename() && e.expanded.None?)
    && ItemSucceeds(AfterSave(s, r.fd, keep, floor, limit), r, e, opts, keep, floor, limit)
  }

  /**
    An item that opens no descriptor but its target, its `>>|` input and
    the copy of that input takes at most three free descriptors.
  */
  lemma ItemFreeBound(s: FdState, t': Table, r: Redir, e: Env, keep: bool, floor: int, limit: int)
    requires 0 <= floor
    requires t'.Keys <= s.fds.Keys + {r.fd} + PipeInput(r, e) + PipeCopy(s, r, e, keep, floor, limit)
    ensures |FreeFrom(t', floor, limit)| + 3 >= |FreeFrom(s.fds, floor, limit)|
  {
    FreeShrinksBy(s.fds, t', {r.fd} + PipeInput(r, e) + PipeCopy(s, r, e, keep, floor, limit), floor, limit);
  }

  /** The targets and the `>>|` input descriptors of the first `n` items. */
  function Exposed(rs: seq<Redir>, envs: seq<Env>, n: nat): set<int>
    requires n <= |rs| == |envs|
  {
    if n == 0 then {} else Exposed(rs, envs, n - 1) + {rs[n - 1].fd} + PipeInput(rs[n - 1], envs[n - 1])
  }

  /**
    The first `n` items ran: `trace[i]` is the state item `i` started
    from, it satisfied `ItemOk` there, and `trace[i + 1]` has its target
    opened.
  */
  ghost predicate Ran(rs: seq<Redir>, envs: seq<Env>, opts: Options, keep: bool, floor: int, limit: int,
                      trace: seq<FdState>, n: nat)
    requires 0 <= floor
  {
    && n <= |rs| == |envs| && |trace| == n + 1
    && forall i :: 0 <= i < n ==>
         ItemOk(trace[i], rs[i], envs[i], opts, keep, floor, limit) && Opened(trace[i + 1].fds, rs[i], envs[i], opts.noclobber)
  }

  /**
    What `open_redirections` has established after `n` items: `trace[i]` is
    the state item `i` started from, each of those items succeeded exactly
    as `ItemOk` says and left its target opened, the targets whose original
    was lost are among those the items named, and each item used at most
    four free descriptors at or above `floor`, so that with enough of them
    nothing is lost.
  */
  ghost predicate Progress(rs: seq<Redir>, envs: seq<Env>, opts: Options, keep: bool, floor: int, limit: int,
                           trace: seq<FdState>, lost: set<int>, n: nat)
    requires 0 <= floor
  {
    && Ran(rs, envs, opts, keep, floor, limit, trace, n)
    && (keep ==> lost <= Exposed(rs, envs, n))
    && Keeps(trace[0].fds, trace[n].fds, Exposed(rs, envs, n))
    && |FreeFrom(trace[n].fds, floor, limit)| + 4 * n >= |FreeFrom(trace[0].fds, floor, limit)|
    && (keep && |FreeFrom(trace[0].fds, floor, limit)| >= 4 * |rs| ==> lost == {})
  }

  /** An item that succeeds from the last state of the trace extends it. */
  lemma ProgressStep(rs: seq<Redir>, envs: seq<Env>, opts: Options, keep: bool, floor: int, limit: int,
                     trace: seq<FdState>, lost: set<int>, n: nat, s: FdState, lost': set<int>)
    requires 0 <= floor && Progress(rs, envs, opts, keep, floor, limit, trace, lost, n) && n < |rs|
    requires ItemOk(trace[n], rs[n], envs[n], opts, keep, floor, limit) && Opened(s.fds, rs[n], envs[n], opts.noclobber)
    requires |FreeFrom(s.fds, floor, limit)| + 4 >= |FreeFrom(trace[n].fds, floor, limit)|
    requires keep ==> lost' <= lost + {rs[n].fd} + PipeInput(rs[n], envs[n])
    requires keep && |FreeFrom(trace[n].fds, floor, limit)| >= 2 ==> lost' == lost
    requires Keeps(trace[n].fds, s.fds, {rs[n].fd} + PipeInput(rs[n], envs[n]))
    ensures Progress(rs, envs, opts, keep, floor, limit, trace + [s], lost', n + 1)
  {
    var trace' := trace + [s];
    KeepsTrans(trace[0].fds, trace[n].fds, s.fds, Exposed(rs, envs, n), {rs[n].fd} + PipeInput(rs[n], envs[n]),
               Exposed(rs, envs, n + 1));
    forall i | 0 <= i < n + 1
      ensures ItemOk(trace'[i], rs[i], envs[i], opts, keep, floor, limit)
      ensures Opened(trace'[i + 1].fds, rs[i], envs[i], opts.noclobber)
    {
      assert trace'[i] == trace[i];
      if i < n {
        assert trace'[i + 1] == trace[i + 1];
      }
    }
  }

  /** An item that fails ends the trace: what was lost is still among the targets named so far. */
  lemma ProgressStops(rs: seq<Redir>, envs: seq<Env>, opts: Options, keep: bool, floor: int, limit: int,
                      trace: seq<FdState>, lost: set<int>, n: nat, lost': set<int>)
    requires 0 <= floor && Progress(rs, envs, opts, keep, floor, limit, trace, lost, n) && n < |rs|
    requires keep ==> lost' <= lost + {rs[n].fd} + PipeInput(rs[n], envs[n])
    requires keep && |FreeFrom(trace[n].fds, floor, limit)| >= 2 ==> lost' == lost
    ensures keep ==> lost' <= Exposed(rs, envs, n + 1)
    ensures keep && |FreeFrom(trace[0].fds, floor, limit)| >= 4 * |rs| ==> lost' == {}
  {
  }

  /** Every item that ran named a legal target below FD_SETSIZE. */
  lemma RanTargets(rs: seq<Redir>, envs: seq<Env>, opts: Options, keep: bool, floor: int, limit: int,
                   trace: seq<FdState>, n: nat)
    requires 0 <= floor && Ran(rs, envs, opts, keep, floor, limit, trace, n)
    ensures forall i :: 0 <= i < n ==> 0 <= rs[i].fd < FdSetSize
  {
  }

  class Shell {
    /** RLIMIT_NOFILE: every descriptor number stays below it. */
    const openMax: int
    /** The kernel's descriptor table of the shell process. */
    var fds: Table
    /** The identity the next pipe the kernel creates gets. */
    var nextPipe: nat

    /** `shellfds`: the bitmap of descriptors reserved for the shell. */
    const shellfds: array<bool>
    /** `shellfdmin`: the floor for new shell FDs. */
    var shellfdmin: int
    /** `shellfdmax`: the greatest member of `shellfds`, or -1. */
    var shellfdmax: int
    /** `ttyfd`: the descriptor of the controlling terminal, or -1. */
    var ttyfd: int
    /** `is_stdin_redirected`. */
    var isStdinRedirected: bool

    ghost predicate Valid()
      reads this, shellfds
    {
      && shellfds.Length == FdSetSize
      && 10 <= shellfdmin <= ShellFdMinMax
      && -1 <= shellfdmax < FdSetSize
      && (shellfdmax >= 0 ==> shellfds[shellfdmax])
      && (forall i :: shellfdmax < i < FdSetSize ==> !shellfds[i])
      && InRange(fds, openMax)
    }

    /** The descriptors the bitmap marks. */
    ghost function Members(): set<int>
      reads shellfds
    {
      set i | 0 <= i < shellfds.Length && shellfds[i]
    }

    /** The state a redirection transaction reads and writes. */
    ghost function Abs(): FdState
      reads this, shellfds
      requires Valid()
    {
      FdState(fds, Members(), isStdinRedirected)
    }

    /** `shellfdmax` is the greatest registered descriptor, or -1 when there is none. */
    lemma MaxIsGreatestMember()
      requires Valid()
      ensures shellfdmax == -1 <==> Members() == {}
      ensures shellfdmax >= 0 ==> shellfdmax in Members()
      ensures forall fd :: fd in Members() ==> fd <= shellfdmax
    {
      if shellfdmax >= 0 {
        assert shellfdmax in Members();
      }
    }

    /** `init_shellfds`, on a process that inherited the table `inherited`. */
    constructor (openMax: int, inherited: Table, reply: SysconfReply)
      requires InRange(inherited, openMax)
      ensures Valid() && fresh(shellfds)
      ensures this.openMax == openMax && fds == inherited
      ensures Members() == {} && shellfdmax == -1 && shellfdmin == ShellFdMinFor(reply)
      ensures ttyfd == -1 && !isStdinRedirected
    {
      this.openMax := openMax;
      fds := inherited;
      nextPipe := 0;
      shellfds := new bool[FdSetSize](_ => false);
      shellfdmin := ShellFdMinFor(reply);
      shellfdmax := -1;
      ttyfd := -1;
      isStdinRedirected := false;
    }

    /** `reset_shellfdmin`. */
    method ResetShellFdMin(reply: SysconfReply)
      requires Valid()
      modifies this`shellfdmin
      ensures Valid() && shellfdmin == ShellFdMinFor(reply)
    {
      shellfdmin := ShellFdMinFor(reply);
    }

    /**
      `add_shellfd`. A descriptor beyond the bitmap is not recorded (it is a
      shell FD by `IsShellFd` anyway) and leaves `shellfdmax` alone.
    */
    method AddShellFd(fd: int)
      requires Valid() && fd >= shellfdmin
      modifies this`shellfdmax, shellfds
      ensures Valid() && shellfdmin == old(shellfdmin)
      ensures Members() == old(Members()) + (if fd < FdSetSize then {fd} else {})
      ensures fd < FdSetSize ==> shellfdmax == if old(shellfdmax) < fd then fd else old(shellfdmax)
      ensures fd >= FdSetSize ==> shellfdmax == old(shellfdmax)
    {
      if fd < FdSetSize {
        shellfds[fd] := true;
        if shellfdmax < fd {
          shellfdmax := fd;
        }
      }
    }

    /**
      `remove_shellfd`: `shellfdmax` is found again by scanning downward.
      Its callers pass a descriptor that is still open.
    */
    method RemoveShellFd(fd: int)
      requires Valid() && 0 <= fd
      modifies this`shellfdmax, shellfds
      ensures Valid() && shellfdmin == old(shellfdmin)
      ensures Members() == old(Members()) - {fd}
    {
      if 0 <= fd < FdSetSize {
        shellfds[fd] := false;
      }
      if fd == shellfdmax {
        shellfdmax := fd - 1;
        while shellfdmax >= 0 && !shellfds[shellfdmax]
          invariant -1 <= shellfdmax < FdSetSize
          invariant forall i :: shellfdmax < i < FdSetSize ==> !shellfds[i]
          modifies this`shellfdmax
          decreases shellfdmax
        {
          shellfdmax := shellfdmax - 1;
        }
      }
    }

    /** `is_shellfd`. */
    function IsShellFd(fd: int): (r: bool)
      reads this, shellfds
      requires Valid()
      ensures r <==> fd >= FdSetSize || fd in Members()
      ensures fd < 0 ==> !r
    {
      fd >= FdSetSize || (fd >= 0 && shellfds[fd])
    }

    /** `xclose`: closing a descriptor that is not open is a success. */
    method XClose(fd: int) returns (r: int)
      modifies this`fds
      ensures r == 0 && fds == old(fds) - {fd}
      ensures Members() == old(Members()) && (InRange(old(fds), openMax) ==> InRange(fds, openMax))
    {
      fds := fds - {fd};
      r := 0;
    }

    /** `xdup2`: `newfd` is closed first, then `oldfd` is duplicated onto it. */
    method XDup2(oldfd: int, newfd: int) returns (r: int)
      modifies this`fds
      ensures fds == Dup2(old(fds), oldfd, newfd, openMax)
      ensures Members() == old(Members()) && (InRange(old(fds), openMax) ==> InRange(fds, openMax))
      ensures r == if Dup2Succeeds(old(fds), oldfd, newfd, openMax) then newfd else -1
    {
      var _ := XClose(newfd);
      if oldfd in fds && 0 <= newfd < openMax {
        fds := fds[newfd := fds[oldfd]];
        r := newfd;
      } else {
        r := -1;
      }
    }

    /** `fcntl(fd, F_DUPFD, from)` (and `dup(fd)` when `from` is 0). */
    method DupFrom(fd: int, from: int) returns (newfd: int, err: Option<Errno>)
      requires 0 <= from
      modifies this`fds
      ensures newfd >= 0 <==> err.None?
      ensures err == Some(EBADF) <==> fd !in old(fds)
      ensures newfd >= 0 ==>
                fd in old(fds) && LowestFree(old(fds), from, openMax) == Some(newfd)
                && fds == old(fds)[newfd := old(fds)[fd]]
      ensures newfd < 0 ==>
                newfd == -1 && fds == old(fds)
                && (fd in old(fds) ==> LowestFree(old(fds), from, openMax).None?)
    {
      if fd !in fds {
        return -1, Some(EBADF);
      }
      if from >= openMax {
        return -1, Some(EINVAL);
      }
      match LowestFree(fds, from, openMax)
      case None =>
        return -1, Some(EMFILE);
      case Some(n) =>
        fds := fds[n := fds[fd]];
        return n, None;
    }

    /** `open(2)` of an object: it gets the lowest free descriptor. */
    method Open(d: Desc) returns (fd: int)
      modifies this`fds
      ensures fd >= 0 <==> LowestFree(old(fds), 0, openMax).Some?
      ensures fd >= 0 ==> LowestFree(old(fds), 0, openMax) == Some(fd) && fds == old(fds)[fd := d]
      ensures fd < 0 ==> fd == -1 && fds == old(fds)
    {
      match LowestFree(fds, 0, openMax)
      case None =>
        fd := -1;
      case Some(n) =>
        fds := fds[n := d];
        fd := n;
    }

    /**
      `pipe(2)`: the read end takes the lowest free descriptor and the write
      end the lowest free one above it, the two lowest free descriptors.
    */
    method MakePipe() returns (ok: bool, rfd: int, wfd: int)
      modifies this`fds, this`nextPipe
      ensures ok <==> TwoFree(old(fds), openMax)
      ensures ok ==> LowestFree(old(fds), 0, openMax) == Some(rfd) && LowestFree(old(fds), rfd + 1, openMax) == Some(wfd)
      ensures ok ==> rfd < wfd && rfd !in old(fds) && wfd !in old(fds)
      ensures ok ==> 0 <= rfd < openMax && 0 <= wfd < openMax
      ensures ok ==> forall k :: 0 <= k < wfd && k != rfd ==> k in old(fds)
      ensures ok ==> fds == old(fds)[rfd := Desc(PipeRead(old(nextPipe)), ReadOnly)][wfd := Desc(PipeWrite(old(nextPipe)), WriteOnly)]
      ensures !ok ==> fds == old(fds)
    {
      ok := false;
      rfd, wfd := -1, -1;
      match LowestFree(fds, 0, openMax)
      case None =>
      case Some(r) =>
        match LowestFree(fds, r + 1, openMax)
        case None =>
        case Some(w) =>
          ok, rfd, wfd := true, r, w;
          fds := fds[r := Desc(PipeRead(nextPipe), ReadOnly)][w := Desc(PipeWrite(nextPipe), WriteOnly)];
          nextPipe := nextPipe + 1;
    }

    /**
      `copy_as_shellfd`: `fcntl(fd, F_DUPFD_CLOEXEC, shellfdmin)`, and the
      copy is registered when it was made.
    */
    method CopyAsShellFd(fd: int) returns (newfd: int, err: Option<Errno>)
      requires Valid()
      modifies this`fds, this`shellfdmax, shellfds
      ensures Valid() && shellfdmin == old(shellfdmin)
      ensures nextPipe == old(nextPipe) && isStdinRedirected == old(isStdinRedirected)
      ensures newfd >= 0 <==> err.None?
      ensures err == Some(EBADF) <==> fd !in old(fds)
      ensures newfd >= 0 ==>
                fd in old(fds) && LowestFree(old(fds), shellfdmin, openMax) == Some(newfd)
                && fds == old(fds)[newfd := old(fds)[fd]]
                && Members() == old(Members()) + (if newfd < FdSetSize then {newfd} else {})
      ensures newfd < 0 ==>
                newfd == -1 && fds == old(fds) && Members() == old(Members())
                && (fd in old(fds) ==> LowestFree(old(fds), shellfdmin, openMax).None?)
    {
      newfd, err := DupFrom(fd, shellfdmin);
      if newfd >= 0 {
        AddShellFd(newfd);
      }
    }

    /**
      `save_fd`. With `keep` false (a NULL `save`) nothing happens. Otherwise
      a record is pushed: with the copy, or with -1 when `fd` is not open
      (EBADF). When the copy fails for another reason no record is pushed and
      `fd` joins the descriptors the transaction gives up on (`lost`).
    */
    method SaveFd(fd: int, keep: bool, save: seq<SaveEntry>, ghost pre: FdState, ghost lost: set<int>)
      returns (save': seq<SaveEntry>, ghost lost': set<int>)
      requires Valid() && 0 <= fd
      requires keep ==> Tracks(Abs(), save, pre, lost, openMax)
      modifies this`fds, this`shellfdmax, shellfds
      ensures Valid() && shellfdmin == old(shellfdmin) && nextPipe == old(nextPipe)
      ensures !keep ==> save' == save && lost' == lost
      ensures keep ==> Tracks(Abs(), save', pre, lost', openMax)
      ensures keep ==> fd in Origins(save') + lost' && Origins(save) <= Origins(save') && lost <= lost'
      ensures keep ==> Prepends(save', save, {fd}, 1)
      ensures keep && fd !in old(fds) ==> save' == [SaveEntry(fd, -1, isStdinRedirected)] + save && lost' == lost
      ensures keep && fd in old(fds) && LowestFree(old(fds), shellfdmin, openMax).None? ==>
                save' == save && lost' == lost + {fd}
      ensures keep && fd in old(fds) && LowestFree(old(fds), shellfdmin, openMax).Some? ==>
                save' == [SaveEntry(fd, LowestFree(old(fds), shellfdmin, openMax).value, isStdinRedirected)] + save
                && lost' == lost
      ensures Abs() == AfterSave(old(Abs()), fd, keep, shellfdmin, openMax)
      ensures keep ==> lost' <= lost + {fd}
      ensures keep && FreeFrom(old(fds), shellfdmin, openMax) != {} ==> lost' == lost
    {
      LowestFreeNone(fds, shellfdmin, openMax);
      save', lost' := save, lost;
      if !keep {
        return;
      }
      ghost var s := Abs();
      var copyfd, err := CopyAsShellFd(fd);
      if copyfd < 0 && err != Some(EBADF) {
        assert Abs() == s == AfterSave(s, fd, keep, shellfdmin, openMax);
        TracksAfterLostSave(s, save, pre, lost, openMax, fd);
        lost' := lost + {fd};
        return;
      }
      var e := SaveEntry(fd, copyfd, isStdinRedirected);
      save' := [e] + save;
      CopiesCons(e, save);
      PrependsOne(e, save);
      if copyfd >= 0 {
        assert Abs() == AfterSave(s, fd, keep, shellfdmin, openMax);
        TracksAfterCopy(s, save, pre, lost, openMax, fd, copyfd);
      } else {
        assert Abs() == s == AfterSave(s, fd, keep, shellfdmin, openMax);
        TracksAfterClosedSave(s, save, pre, lost, openMax, fd);
      }
    }

    /**
      `undo_redirections`: every record, newest first, puts its descriptor
      back and the flag takes the oldest record's value.
    */
    method UndoRedirections(save: seq<SaveEntry>)
      requires Valid()
      modifies this`fds, this`shellfdmax, shellfds, this`isStdinRedirected
      ensures Valid()
      ensures Abs() == Undo(old(Abs()), save, openMax)
      ensures Members() == old(Members()) - Copies(save)
      ensures save != [] ==> isStdinRedirected == save[|save| - 1].stdinRedirected
      ensures save == [] ==> isStdinRedirected == old(isStdinRedirected)
    {
      var i := 0;
      assert save[i..] == save;
      while i < |save|
        invariant 0 <= i <= |save| && Valid()
        invariant Undo(Abs(), save[i..], openMax) == Undo(old(Abs()), save, openMax)
      {
        var e := save[i];
        ghost var s := Abs();
        if e.copyFd >= 0 {
          RemoveShellFd(e.copyFd);
          var _ := XDup2(e.copyFd, e.origFd);
          var _ := XClose(e.copyFd);
        } else {
          var _ := XClose(e.origFd);
        }
        isStdinRedirected := e.stdinRedirected;
        assert Abs() == UndoEntry(s, e, openMax);
        assert save[i..][1..] == save[i + 1..];
        i := i + 1;
      }
      UndoUnregistersCopies(old(Abs()), save, openMax);
      if save != [] {
        UndoLeavesOldestFlag(old(Abs()), save, openMax);
      }
    }

    /** `clear_savefd`: the transaction is committed; only the copies are released. */
    method ClearSavefd(save: seq<SaveEntry>)
      requires Valid()
      modifies this`fds, this`shellfdmax, shellfds
      ensures Valid()
      ensures Abs() == Commit(old(Abs()), save)
      ensures fds == old(fds) - Copies(save) && Members() == old(Members()) - Copies(save)
    {
      var i := 0;
      assert save[i..] == save;
      while i < |save|
        invariant 0 <= i <= |save| && Valid()
        invariant Commit(Abs(), save[i..]) == Commit(old(Abs()), save)
      {
        var e := save[i];
        ghost var s := Abs();
        if e.copyFd >= 0 {
          RemoveShellFd(e.copyFd);
          var _ := XClose(e.copyFd);
        }
        assert Abs() == CommitEntry(s, e);
        assert save[i..][1..] == save[i + 1..];
        i := i + 1;
      }
      CommitReleasesOnlyCopies(old(Abs()), save);
    }

    /**
      The `openwithflags` branch of `open_redirections`: `open_file` with
      the flags of the kind, giving the lowest free descriptor.
    */
    method OpenFile(kind: RedirKind, e: Env, noclobber: bool) returns (fd: int)
      requires kind.OpensFile()
      modifies this`fds
      ensures fd >= 0 <==>
                OpenSucceeds(FlagsFor(kind, noclobber, e.status == Irregular), e.status, e.permitted)
                && LowestFree(old(fds), 0, openMax).Some?
      ensures fd >= 0 ==>
                LowestFree(old(fds), 0, openMax) == Some(fd)
                && fds == old(fds)[fd := Desc(File(e.file), FlagsFor(kind, noclobber, e.status == Irregular).access)]
      ensures fd < 0 ==> fd == -1 && fds == old(fds)
    {
      var flags := FlagsFor(kind, noclobber, e.status == Irregular);
      if !OpenSucceeds(flags, e.status, e.permitted) {
        return -1;
      }
      fd := Open(Desc(File(e.file), flags.access));
    }

    /**
      `parse_and_check_dup`: -1 for "-", the descriptor for an acceptable
      number, -2 for a malformed number, a shell FD, or (in POSIX mode) a
      descriptor that is not open or lacks the access the kind needs.
    */
    function ParseAndCheckDup(num: seq<char>, kind: RedirKind, posixlyCorrect: bool): (r: int)
      reads this, shellfds
      requires Valid() && (kind == DupIn || kind == DupOut)
      ensures r >= -2
      ensures r == -1 <==> num == "-"
      ensures r >= 0 <==>
                && num != "-"
                && ParseFdNumber(num).Some?
                && !IsShellFd(ParseFdNumber(num).value)
                && (posixlyCorrect ==> DupAllowed(ParseFdNumber(num).value, kind))
      ensures r >= 0 ==> r == ParseFdNumber(num).value
    {
      if num == "-" then -1
      else match ParseFdNumber(num)
        case None => -2
        case Some(v) =>
          if IsShellFd(v) then -2
          else if posixlyCorrect && !DupAllowed(v, kind) then -2
          else v
    }

    /**
      The POSIX-mode check of `parse_and_check_dup`: `fcntl(F_GETFL)`
      succeeds and the access mode permits reading for `<&` or writing for
      `>&`.
    */
    predicate DupAllowed(fd: int, kind: RedirKind)
      reads this
    {
      fd in fds && (if kind == DupIn then Readable(fds[fd].access) else Writable(fds[fd].access))
    }

    /**
      `parse_and_exec_pipe`: opens a pipe whose read end is the descriptor
      written after `>>|` and returns its write end, which the caller moves
      to `outputfd`. The read end's descriptor is saved first. A copy that
      takes the number `outputfd` is refused (see the findings in README).
    */
    method ParseAndExecPipe(outputfd: int, num: seq<char>, keep: bool, save: seq<SaveEntry>,
                            ghost pre: FdState, ghost lost: set<int>)
      returns (fd: int, save': seq<SaveEntry>, ghost lost': set<int>)
      requires Valid() && 0 <= outputfd
      requires keep ==> Tracks(Abs(), save, pre, lost, openMax)
      modifies this`fds, this`nextPipe, this`shellfdmax, shellfds
      ensures Valid() && fd >= -2 && fd != -1 && shellfdmin == old(shellfdmin)
      ensures ParseFdNumber(num).None? || ParseFdNumber(num).value == outputfd
              || old(IsShellFd(ParseFdNumber(num).value)) ==>
                fd == -2 && save' == save && lost' == lost && fds == old(fds) && Members() == old(Members())
      ensures !keep ==> save' == save && lost' == lost && Members() == old(Members())
      ensures keep ==> Origins(save) <= Origins(save') && lost <= lost'
      ensures keep && fd < 0 ==> Tracks(Abs(), save', pre, lost', openMax)
      ensures keep && fd >= 0 ==> Tracks(Abs().Without(fd), save', pre, lost', openMax)
      ensures fd >= 0 <==>
                && ParseFdNumber(num).Some?
                && var input := ParseFdNumber(num).value;
                   && input != outputfd && !old(IsShellFd(input)) && !old(IsShellFd(outputfd))
                   && SavedCopy(old(fds), input, keep, shellfdmin, openMax) != Some(outputfd)
                   && PipeFits(AfterSave(old(Abs()), input, keep, shellfdmin, openMax).fds, input, openMax)
      ensures fd >= 0 ==>
                var input := ParseFdNumber(num).value;
                && !IsShellFd(outputfd) && fd != input && fd !in old(fds) && 0 <= fd < openMax
                && fd in fds && fds[fd] == Desc(PipeWrite(old(nextPipe)), WriteOnly)
                && input in fds && fds[input] == Desc(PipeRead(old(nextPipe)), ReadOnly)
                && fds.Keys == old(fds).Keys + CopySet(old(fds), input, keep, shellfdmin, openMax) + {input, fd}
      ensures keep ==> lost' <= lost + (if ParseFdNumber(num).Some? then {ParseFdNumber(num).value} else {})
      ensures keep ==> Prepends(save', save, if ParseFdNumber(num).Some? then {ParseFdNumber(num).value} else {}, 1)
      ensures Keeps(old(fds), fds, if ParseFdNumber(num).Some? then {ParseFdNumber(num).value} else {})
      ensures keep && FreeFrom(old(fds), shellfdmin, openMax) != {} ==> lost' == lost
    {
      var parsed := ParseFdNumber(num);
      if parsed.None? || parsed.value == outputfd || IsShellFd(parsed.value) {
        return -2, save, lost;
      }
      fd, save', lost' := ExecPipe(outputfd, parsed.value, keep, save, pre, lost);
    }

    /**
      The part of `parse_and_exec_pipe` after the number has been checked
      (redir.c:667-691): `inputfd` is saved, a copy that took the number
      `outputfd` is refused, and the pipe is set up.
    */
    method ExecPipe(outputfd: int, inputfd: int, keep: bool, save: seq<SaveEntry>,
                    ghost pre: FdState, ghost lost: set<int>)
      returns (fd: int, save': seq<SaveEntry>, ghost lost': set<int>)
      requires Valid() && 0 <= outputfd && 0 <= inputfd && inputfd != outputfd && !IsShellFd(inputfd)
      requires keep ==> Tracks(Abs(), save, pre, lost, openMax)
      modifies this`fds, this`nextPipe, this`shellfdmax, shellfds
      ensures Valid() && fd >= -2 && fd != -1 && shellfdmin == old(shellfdmin)
      ensures !keep ==> save' == save && lost' == lost && Members() == old(Members())
      ensures keep ==> Origins(save) <= Origins(save') && lost <= lost'
      ensures keep && fd < 0 ==> Tracks(Abs(), save', pre, lost', openMax)
      ensures keep && fd >= 0 ==> Tracks(Abs().Without(fd), save', pre, lost', openMax)
      ensures fd >= 0 <==>
                && !old(IsShellFd(outputfd))
                && SavedCopy(old(fds), inputfd, keep, shellfdmin, openMax) != Some(outputfd)
                && PipeFits(AfterSave(old(Abs()), inputfd, keep, shellfdmin, openMax).fds, inputfd, openMax)
      ensures fd >= 0 ==>
                && !IsShellFd(outputfd) && fd != inputfd && 0 <= fd < openMax
                && fd !in AfterSave(old(Abs()), inputfd, keep, shellfdmin, openMax).fds
      ensures fd >= 0 ==>
                && fd in fds && fds[fd] == Desc(PipeWrite(old(nextPipe)), WriteOnly)
                && inputfd in fds && fds[inputfd] == Desc(PipeRead(old(nextPipe)), ReadOnly)
                && fds.Keys == old(fds).Keys + CopySet(old(fds), inputfd, keep, shellfdmin, openMax) + {inputfd, fd}
      ensures keep ==> lost' <= lost + {inputfd}
      ensures keep && FreeFrom(old(fds), shellfdmin, openMax) != {} ==> lost' == lost
      ensures keep ==> Prepends(save', save, {inputfd}, 1)
      ensures Keeps(old(fds), fds, {inputfd})
    {
      ghost var s0 := Abs();
      save', lost' := SaveFd(inputfd, keep, save, pre, lost);
      ghost var s1 := Abs();
      assert s1 == AfterSave(s0, inputfd, keep, shellfdmin, openMax);
      if IsShellFd(outputfd) {
        return -2, save', lost';
      }
      fd := PlumbTracked(inputfd, keep, save', pre, lost');
      KeepsTrans(s0.fds, s1.fds, fds, {}, {inputfd}, {inputfd});
    }

    /** `PlumbPipe` inside a transaction that has saved `inputfd`. */
    method PlumbTracked(inputfd: int, keep: bool, ghost save: seq<SaveEntry>, ghost pre: FdState, ghost lost: set<int>)
      returns (fd: int)
      requires Valid() && 0 <= inputfd && !IsShellFd(inputfd)
      requires keep ==> Tracks(Abs(), save, pre, lost, openMax) && inputfd in Origins(save) + lost
      modifies this`fds, this`nextPipe
      ensures Valid() && fd >= -2 && fd != -1 && shellfdmin == old(shellfdmin) && Members() == old(Members())
      ensures keep && fd < 0 ==> Tracks(Abs(), save, pre, lost, openMax)
      ensures keep && fd >= 0 ==> Tracks(Abs().Without(fd), save, pre, lost, openMax)
      ensures fd >= 0 <==> PipeFits(old(fds), inputfd, openMax)
      ensures fd >= 0 ==>
                && fd != inputfd && fd !in old(fds) && 0 <= fd < openMax
                && fds == old(fds)[inputfd := Desc(PipeRead(old(nextPipe)), ReadOnly)]
                                  [fd := Desc(PipeWrite(old(nextPipe)), WriteOnly)]
      ensures fd >= 0 ==>
                && fd in fds && fds[fd] == Desc(PipeWrite(old(nextPipe)), WriteOnly)
                && inputfd in fds && fds[inputfd] == Desc(PipeRead(old(nextPipe)), ReadOnly)
                && fds.Keys == old(fds).Keys + {inputfd, fd}
      ensures Keeps(old(fds), fds, {inputfd})
    {
      ghost var s2 := Abs();
      fd := PlumbPipe(inputfd);
      if fd < 0 {
        fd := -2;
        if keep && fds != s2.fds {
          TracksAfterChange(s2, Abs(), save, pre, lost, openMax, inputfd);
        }
      } else if keep {
        TracksAfterChange(s2, Abs().Without(fd), save, pre, lost, openMax, inputfd);
      }
    }

    /**
      The pipe part of `parse_and_exec_pipe` (redir.c:669-691): the read end
      is moved to `inputfd` (the write end first moved out of its way when
      `pipe` gave it that number) and the write end is returned. On failure
      every descriptor the pipe opened is closed again, and `inputfd` may
      have been closed by the failing `xdup2`.
    */
    method PlumbPipe(inputfd: int) returns (fd: int)
      requires 0 <= inputfd
      modifies this`fds, this`nextPipe
      ensures fd >= -1
      ensures fd >= 0 <==> PipeFits(old(fds), inputfd, openMax)
      ensures fd < 0 ==> fds == old(fds) || fds == old(fds) - {inputfd}
      ensures fd >= 0 ==>
                && fd != inputfd && fd !in old(fds) && 0 <= fd < openMax && 0 <= inputfd < openMax
                && fds == old(fds)[inputfd := Desc(PipeRead(old(nextPipe)), ReadOnly)]
                                  [fd := Desc(PipeWrite(old(nextPipe)), WriteOnly)]
    {
      ghost var t := fds;
      ghost var p := nextPipe;
      var ok, rfd, wfd := MakePipe();
      if !ok {
        return -1;
      }
      ghost var rd := Desc(PipeRead(p), ReadOnly);
      ghost var wd := Desc(PipeWrite(p), WriteOnly);
      if wfd == inputfd {
        LowestFreeSkips(t, fds, 0, wfd + 1, openMax);
      }
      wfd := WriteEndOffInput(rfd, wfd, inputfd, t, rd, wd);
      if wfd < 0 {
        return -1;
      }
      fd := ReadEndOntoInput(rfd, wfd, inputfd, t, rd, wd);
    }

    /**
      When `pipe` gave the write end the number `inputfd`, the write end is
      copied to the lowest free descriptor and the original closed; a
      failing copy closes both ends.
    */
    method WriteEndOffInput(rfd: int, wfd: int, inputfd: int, ghost t: Table, ghost rd: Desc, ghost wd: Desc)
      returns (w: int)
      requires rfd != wfd && rfd !in t && wfd !in t && 0 <= rfd < openMax && 0 <= wfd < openMax
      requires fds == t[rfd := rd][wfd := wd]
      modifies this`fds
      ensures wfd != inputfd ==> w == wfd && fds == old(fds)
      ensures wfd == inputfd ==> (w >= 0 <==> LowestFree(old(fds), 0, openMax).Some?)
      ensures wfd == inputfd && w >= 0 ==> LowestFree(old(fds), 0, openMax) == Some(w)
      ensures w < 0 ==> w == -1 && fds == t
      ensures w >= 0 ==>
                && w != inputfd && w != rfd && w !in t && 0 <= w < openMax
                && fds == t[rfd := rd][w := wd]
    {
      if wfd != inputfd {
        return wfd;
      }
      var newfd, _ := DupFrom(wfd, 0);
      if newfd < 0 {
        var _ := XClose(rfd);
        var _ := XClose(wfd);
        assert fds == t;
        return -1;
      }
      var _ := XClose(wfd);
      assert fds == t[rfd := rd][newfd := wd];
      w := newfd;
    }

    /**
      The read end is copied onto `inputfd` and closed; a failing copy
      closes both ends. The write end is returned.
    */
    method ReadEndOntoInput(rfd: int, wfd: int, inputfd: int, ghost t: Table, ghost rd: Desc, ghost wd: Desc)
      returns (fd: int)
      requires 0 <= inputfd && wfd != inputfd && rfd != wfd
      requires rfd !in t && wfd !in t && 0 <= rfd < openMax && 0 <= wfd < openMax
      requires fds == t[rfd := rd][wfd := wd]
      modifies this`fds
      ensures fd >= 0 <==> inputfd < openMax
      ensures fd < 0 ==> fd == -1 && (fds == t || fds == t - {inputfd})
      ensures fd >= 0 ==> fd == wfd && 0 <= inputfd < openMax && fds == t[inputfd := rd][wfd := wd]
    {
      if rfd != inputfd {
        var r := XDup2(rfd, inputfd);
        if r < 0 {
          var _ := XClose(rfd);
          var _ := XClose(wfd);
          assert fds == t - {inputfd} || fds == t;
          return -1;
        }
        var _ := XClose(rfd);
      }
      fd := wfd;
    }

    /**
      `open_herestring`: an empty text without newline reads from
      /dev/null; a text of at most PIPE_BUF bytes goes through a pipe, whose
      read end is returned; otherwise (or when /dev/null or the pipe cannot
      be opened) the text is written to an unlinked temporary file, which is
      returned. `delivered` is what the returned descriptor will read.
    */
    method OpenHerestring(s: seq<char>, appendNewline: bool, e: Env) returns (fd: int, ghost delivered: seq<char>)
      requires Settles(e.writes, |HereText(s, appendNewline)|)
      modifies this`fds, this`nextPipe
      ensures fd >= -1
      ensures fd >= 0 <==> HereOpens(old(fds), s, appendNewline, e, openMax)
      ensures fd < 0 ==> fds == old(fds)
      ensures fd >= 0 ==>
                && fd !in old(fds) && 0 <= fd < openMax && fd in fds
                && fds == old(fds)[fd := fds[fd]] && Readable(fds[fd].access)
                && delivered <= HereText(s, appendNewline)
      ensures fd >= 0 && fds[fd].obj == DevNull ==> s == [] && !appendNewline && delivered == []
      ensures fd >= 0 && fds[fd].obj.PipeRead? ==>
                |HereText(s, appendNewline)| <= PipeBuf && delivered == HereText(s, appendNewline)
      ensures fd >= 0 && fds[fd].obj.TempFile? ==>
                e.tempFile == Some(fds[fd].obj.id)
                && (delivered == HereText(s, appendNewline) <==> WriteSucceeds(e.writes, |HereText(s, appendNewline)|))
      ensures fd >= 0 ==> fds[fd].obj == DevNull || fds[fd].obj.PipeRead? || fds[fd].obj.TempFile?
      ensures s == [] && !appendNewline && e.devNull && LowestFree(old(fds), 0, openMax).Some? ==>
                fd >= 0 && fds[fd].obj == DevNull
      ensures !(s == [] && !appendNewline && e.devNull) && |HereText(s, appendNewline)| <= PipeBuf
              && TwoFree(old(fds), openMax) ==>
                fd >= 0 && fds[fd].obj.PipeRead?
    {
      delivered := [];
      if s == [] && !appendNewline && e.devNull {
        fd := Open(Desc(DevNull, ReadOnly));
        if fd >= 0 {
          return;
        }
      }
      var text := HereText(s, appendNewline);
      if |text| <= PipeBuf {
        ghost var t := fds;
        var ok, rfd, wfd := MakePipe();
        if ok {
          delivered := text;
          var _ := XClose(wfd);
          assert fds == t[rfd := fds[rfd]];
          return rfd, delivered;
        }
      }
      if e.tempFile.None? {
        return -1, [];
      }
      fd := Open(Desc(TempFile(e.tempFile.value), ReadWrite));
      if fd < 0 {
        return -1, [];
      }
      var _, written := WriteAll(text, e.writes);
      delivered := written;
    }

    /**
      `open_heredocument`: the expanded contents (`None` when expansion or
      conversion fails) are opened as a here-string without added newline.
    */
    method OpenHeredocument(e: Env) returns (fd: int, ghost delivered: seq<char>)
      requires e.expanded.Some? ==> Settles(e.writes, |HereText(e.expanded.value, false)|)
      modifies this`fds, this`nextPipe
      ensures fd >= -1
      ensures fd >= 0 <==> e.expanded.Some? && HereOpens(old(fds), e.expanded.value, false, e, openMax)
      ensures fd < 0 ==> fds == old(fds)
      ensures fd >= 0 ==>
                && e.expanded.Some? && fd !in old(fds) && 0 <= fd < openMax && fd in fds
                && fds == old(fds)[fd := fds[fd]] && Readable(fds[fd].access)
                && delivered <= e.expanded.value
      ensures fd >= 0 && !fds[fd].obj.TempFile? ==> delivered == e.expanded.value
      ensures fd >= 0 && fds[fd].obj.TempFile? ==>
                e.tempFile == Some(fds[fd].obj.id)
                && (delivered == e.expanded.value <==> WriteSucceeds(e.writes, |e.expanded.value|))
      ensures fd >= 0 ==> fds[fd].obj == DevNull || fds[fd].obj.PipeRead? || fds[fd].obj.TempFile?
    {
      if e.expanded.None? {
        return -1, [];
      }
      assert HereText(e.expanded.value, false) == e.expanded.value;
      fd, delivered := OpenHerestring(e.expanded.value, false, e);
    }

    /**
      The parent's side of `open_process_redirection`: a pipe is opened, the
      child is forked (`e.forks` says whether `fork` succeeds) and the
      parent keeps the read end for `<(...)` or the write end for `>(...)`.
    */
    method OpenProcessRedirection(kind: RedirKind, e: Env) returns (fd: int)
      requires kind == ProcIn || kind == ProcOut
      modifies this`fds, this`nextPipe
      ensures fd >= -1
      ensures fd >= 0 <==> e.forks && TwoFree(old(fds), openMax)
      ensures fd < 0 ==> fds == old(fds)
      ensures fd >= 0 ==>
                && fd !in old(fds) && 0 <= fd < openMax && fd in fds
                && fds == old(fds)[fd := fds[fd]]
                && fds[fd] == if kind == ProcIn then Desc(PipeRead(old(nextPipe)), ReadOnly)
                              else Desc(PipeWrite(old(nextPipe)), WriteOnly)
    {
      ghost var t := fds;
      var ok, rfd, wfd := MakePipe();
      if !ok {
        return -1;
      }
      if !e.forks {
        var _ := XClose(rfd);
        var _ := XClose(wfd);
        assert fds == t;
        return -1;
      }
      if kind == ProcIn {
        var _ := XClose(wfd);
        fd := rfd;
      } else {
        var _ := XClose(rfd);
        fd := wfd;
      }
      assert fds == t[fd := fds[fd]];
    }

    /**
      The move step of `open_redirections`: the new descriptor `fd` is
      duplicated onto `rd` and closed unless `keepopen`; -1 (from `<&-`)
      closes `rd`. When the duplication fails, a descriptor the item opened
      is closed as well (see the findings in README).
    */
    method MoveIntoPlace(fd: int, rd: int, keepopen: bool) returns (ok: bool)
      modifies this`fds
      ensures (ok, fds) == Move(old(fds), fd, rd, keepopen, openMax)
    {
      ok := true;
      if fd != rd {
        if fd >= 0 {
          var r := XDup2(fd, rd);
          ok := r >= 0;
          if !keepopen {
            var _ := XClose(fd);
          }
        } else {
          var _ := XClose(rd);
        }
      }
    }

    /**
      The kinds of `open_redirections`'s switch that open a new descriptor
      without saving anything: files, here-documents, here-strings and
      process redirections (redir.c:348-375 and 391-409). `failed` is
      whether the item stops the list, `d` what the new descriptor refers to.
    */
    method OpenFresh(r: Redir, e: Env, opts: Options) returns (failed: bool, fd: int, ghost d: Desc)
      requires WritesSettle(r.kind, e)
      requires !(r.kind == DupIn || r.kind == DupOut || r.kind == Pipe)
      requires r.kind.ExpandsFilename() ==> e.expanded.Some?
      modifies this`fds, this`nextPipe
      ensures failed <==> !FreshOpens(old(fds), r, e, opts, openMax)
      ensures failed ==> fds == old(fds)
      ensures !failed ==> fd !in old(fds) && 0 <= fd < openMax && fds == old(fds)[fd := d]
      ensures r.kind.OpensFile() && !failed ==>
                d == Desc(File(e.file), FlagsFor(r.kind, opts.noclobber, e.status == Irregular).access)
      ensures r.kind == Here || r.kind == HereRaw || r.kind == HereStr ==>
                !failed ==> Readable(d.access) && (d.obj == DevNull || d.obj.PipeRead? || d.obj.TempFile?)
      ensures r.kind == ProcIn || r.kind == ProcOut ==>
                (!failed ==> if r.kind == ProcIn then d.obj.PipeRead? && d.access == ReadOnly
                                else d.obj.PipeWrite? && d.access == WriteOnly)
    {
      d := Desc(DevNull, ReadOnly);
      ghost var t := fds;
      ghost var delivered;
      match r.kind {
        case Input | Output | Clobber | Append | InOut =>
          fd := OpenFile(r.kind, e, opts.noclobber);
        case Here | HereRaw =>
          fd, delivered := OpenHeredocument(e);
        case HereStr =>
          fd, delivered := OpenHerestring(e.expanded.value, true, e);
        case ProcIn | ProcOut =>
          fd := OpenProcessRedirection(r.kind, e);
      }
      assert fd < 0 ==> fds == t;
      assert fd >= 0 ==> fd !in t && 0 <= fd < openMax && fds == t[fd := fds[fd]];
      failed := fd < 0;
      if !failed {
        d := fds[fd];
      }
    }

    /**
      The kind-by-kind switch of `open_redirections` (redir.c:345-410), run
      after the target has been saved. `fd` is the descriptor to move into
      place (-1 for `<&-`), `d` what it refers to, and `failed` whether the
      item stops the whole list. Only the pipe kind pushes a record here.
    */
    method OpenTarget(r: Redir, e: Env, opts: Options, keep: bool, save: seq<SaveEntry>,
                      ghost pre: FdState, ghost lost: set<int>)
      returns (failed: bool, fd: int, keepopen: bool, save': seq<SaveEntry>, ghost lost': set<int>)
      requires Valid() && 0 <= r.fd && !IsShellFd(r.fd) && WritesSettle(r.kind, e)
      requires r.kind.ExpandsFilename() ==> e.expanded.Some?
      requires keep ==> Tracks(Abs(), save, pre, lost, openMax) && r.fd in Origins(save) + lost
      modifies this`fds, this`nextPipe, this`shellfdmax, shellfds
      ensures Valid() && (!failed ==> !IsShellFd(r.fd)) && shellfdmin == old(shellfdmin)
      ensures !keep ==> save' == save && lost' == lost
      ensures keep ==> Origins(save) <= Origins(save') && lost <= lost' && r.fd in Origins(save') + lost'
      ensures keep && failed ==> Tracks(Abs(), save', pre, lost', openMax)
      ensures keep && !failed ==>
                Tracks(if fd >= 0 && !keepopen then Abs().Without(fd) else Abs(), save', pre, lost', openMax)
      ensures !failed ==> fd >= -1 && (fd == -1 ==> keepopen) && (!keepopen ==> fd >= 0 && fd in fds)
      ensures !failed ==> Ready(fds, r, e, opts.noclobber, fd, keepopen)
      ensures keepopen <==> r.kind == DupIn || r.kind == DupOut
      ensures r.kind != Pipe ==> save' == save && lost' == lost && Members() == old(Members())
      ensures r.kind.OpensFile() ==>
                (failed <==> !OpenSucceeds(FlagsFor(r.kind, opts.noclobber, e.status == Irregular), e.status, e.permitted)
                             || LowestFree(old(fds), 0, openMax).None?)
      ensures r.kind == DupIn || r.kind == DupOut ==>
                && fds == old(fds)
                && fd == old(ParseAndCheckDup(e.expanded.value, r.kind, opts.posixlyCorrect))
                && (failed <==> fd < -1)
      ensures (!failed && MoveWorks(fds, fd, r.fd, openMax))
              <==> ItemSucceeds(old(Abs()), r, e, opts, keep, shellfdmin, openMax)
      ensures !failed && !keepopen ==> fd !in old(fds)
      ensures !failed ==>
                fds.Keys <= old(fds).Keys + (if keepopen then {} else {fd}) + PipeInput(r, e)
                            + PipeCopy(old(Abs()), r, e, keep, shellfdmin, openMax)
      ensures keep ==> lost' <= lost + PipeInput(r, e)
      ensures keep && FreeFrom(old(fds), shellfdmin, openMax) != {} ==> lost' == lost
      ensures keep ==> Prepends(save', save, PipeInput(r, e), if r.kind == Pipe then 1 else 0)
      ensures Keeps(old(fds), fds, PipeInput(r, e))
    {
      save', lost' := save, lost;
      if r.kind == DupIn || r.kind == DupOut {
        keepopen := true;
        fd := ParseAndCheckDup(e.expanded.value, r.kind, opts.posixlyCorrect);
        failed := fd < -1;
      } else if r.kind == Pipe {
        keepopen := false;
        failed, fd, save', lost' := OpenPipeTarget(r, e, opts, keep, save, pre, lost);
      } else {
        keepopen := false;
        failed, fd := OpenFreshTarget(r, e, opts);
      }
    }

    /**
      The kinds of `OpenTarget` that open a new descriptor (redir.c:349-385,
      392-409): the shell's state gains that descriptor and nothing else.
    */
    method OpenFreshTarget(r: Redir, e: Env, opts: Options) returns (failed: bool, fd: int)
      requires Valid() && WritesSettle(r.kind, e)
      requires !(r.kind == DupIn || r.kind == DupOut || r.kind == Pipe)
      requires r.kind.ExpandsFilename() ==> e.expanded.Some?
      modifies this`fds, this`nextPipe
      ensures Valid() && shellfdmin == old(shellfdmin)
      ensures failed <==> !FreshOpens(old(fds), r, e, opts, openMax)
      ensures failed ==> Abs() == old(Abs())
      ensures !failed ==> 0 <= fd < openMax && fd !in old(fds) && fd in fds && Abs().Without(fd) == old(Abs())
      ensures Keeps(old(fds), fds, {})
      ensures !failed ==> Ready(fds, r, e, opts.noclobber, fd, false)
      ensures r.kind.OpensFile() ==>
                (failed <==> !OpenSucceeds(FlagsFor(r.kind, opts.noclobber, e.status == Irregular), e.status, e.permitted)
                             || LowestFree(old(fds), 0, openMax).None?)
    {
      ghost var t := fds;
      ghost var d;
      failed, fd, d := OpenFresh(r, e, opts);
      if !failed {
        assert fds - {fd} == t;
      }
    }

    /** The `>>|` case of `OpenTarget` (redir.c:386-391). */
    method OpenPipeTarget(r: Redir, e: Env, opts: Options, keep: bool, save: seq<SaveEntry>,
                          ghost pre: FdState, ghost lost: set<int>)
      returns (failed: bool, fd: int, save': seq<SaveEntry>, ghost lost': set<int>)
      requires Valid() && 0 <= r.fd && !IsShellFd(r.fd) && r.kind == Pipe && e.expanded.Some?
      requires keep ==> Tracks(Abs(), save, pre, lost, openMax) && r.fd in Origins(save) + lost
      modifies this`fds, this`nextPipe, this`shellfdmax, shellfds
      ensures Valid() && (!failed ==> !IsShellFd(r.fd)) && shellfdmin == old(shellfdmin)
      ensures !keep ==> save' == save && lost' == lost
      ensures keep ==> Origins(save) <= Origins(save') && lost <= lost' && r.fd in Origins(save') + lost'
      ensures keep && failed ==> Tracks(Abs(), save', pre, lost', openMax)
      ensures keep && !failed ==> Tracks(Abs().Without(fd), save', pre, lost', openMax)
      ensures !failed ==> 0 <= fd && fd in fds && fd !in old(fds) && Ready(fds, r, e, opts.noclobber, fd, false)
      ensures (!failed && MoveWorks(fds, fd, r.fd, openMax))
              <==> ItemSucceeds(old(Abs()), r, e, opts, keep, shellfdmin, openMax)
      ensures !failed ==>
                fds.Keys <= old(fds).Keys + {fd} + PipeInput(r, e) + PipeCopy(old(Abs()), r, e, keep, shellfdmin, openMax)
      ensures keep ==> lost' <= lost + PipeInput(r, e)
      ensures keep && FreeFrom(old(fds), shellfdmin, openMax) != {} ==> lost' == lost
      ensures keep ==> Prepends(save', save, PipeInput(r, e), 1)
      ensures Keeps(old(fds), fds, PipeInput(r, e))
    {
      fd, save', lost' := ParseAndExecPipe(r.fd, e.expanded.value, keep, save, pre, lost);
      failed := fd < -1;
    }

    /**
      The second half of an item (redir.c:345-427), once its target has been
      checked and saved: the kind opens its descriptor, which is moved into
      place, and the stdin flag is set for a target 0.
    */
    method OpenAndMove(r: Redir, e: Env, opts: Options, keep: bool, save: seq<SaveEntry>,
                       ghost pre: FdState, ghost lost: set<int>)
      returns (ok: bool, save': seq<SaveEntry>, ghost lost': set<int>)
      requires Valid() && 0 <= r.fd && !IsShellFd(r.fd) && WritesSettle(r.kind, e)
      requires r.kind.ExpandsFilename() ==> e.expanded.Some?
      requires keep ==> Tracks(Abs(), save, pre, lost, openMax) && r.fd in Origins(save) + lost
      modifies this`fds, this`nextPipe, this`shellfdmax, shellfds, this`isStdinRedirected
      ensures Valid() && shellfdmin == old(shellfdmin)
      ensures !keep ==> save' == save && lost' == lost
      ensures keep ==> Tracks(Abs(), save', pre, lost', openMax)
      ensures keep ==> Origins(save) <= Origins(save') && lost <= lost'
      ensures ok ==> r.fd < FdSetSize && !IsShellFd(r.fd) && Opened(fds, r, e, opts.noclobber)
      ensures ok <==> ItemSucceeds(old(Abs()), r, e, opts, keep, shellfdmin, openMax)
      ensures ok ==> |FreeFrom(fds, shellfdmin, openMax)| + 3 >= |FreeFrom(old(fds), shellfdmin, openMax)|
      ensures keep ==> lost' <= lost + PipeInput(r, e)
      ensures keep && FreeFrom(old(fds), shellfdmin, openMax) != {} ==> lost' == lost
      ensures keep ==> Prepends(save', save, PipeInput(r, e), if r.kind == Pipe then 1 else 0)
      ensures Keeps(old(fds), fds, {r.fd} + PipeInput(r, e))
      ensures isStdinRedirected == (old(isStdinRedirected) || (ok && r.fd == 0))
    {
      ghost var s0 := Abs();
      ok, save', lost' := PlaceTarget(r, e, opts, keep, save, pre, lost);
      if ok {
        ItemFreeBound(s0, fds, r, e, keep, shellfdmin, openMax);
      }
      if ok && r.fd == 0 {
        MarkStdinRedirected(keep, save', pre, lost');
      }
    }

    /** `OpenTarget` followed by `MoveTarget`: the kind opens its descriptor and it is moved into place. */
    method PlaceTarget(r: Redir, e: Env, opts: Options, keep: bool, save: seq<SaveEntry>,
                       ghost pre: FdState, ghost lost: set<int>)
      returns (ok: bool, save': seq<SaveEntry>, ghost lost': set<int>)
      requires Valid() && 0 <= r.fd && !IsShellFd(r.fd) && WritesSettle(r.kind, e)
      requires r.kind.ExpandsFilename() ==> e.expanded.Some?
      requires keep ==> Tracks(Abs(), save, pre, lost, openMax) && r.fd in Origins(save) + lost
      modifies this`fds, this`nextPipe, this`shellfdmax, shellfds
      ensures Valid() && shellfdmin == old(shellfdmin)
      ensures !keep ==> save' == save && lost' == lost
      ensures keep ==> Tracks(Abs(), save', pre, lost', openMax)
      ensures keep ==> Origins(save) <= Origins(save') && lost <= lost'
      ensures ok ==> r.fd < FdSetSize && !IsShellFd(r.fd) && Opened(fds, r, e, opts.noclobber)
      ensures ok <==> ItemSucceeds(old(Abs()), r, e, opts, keep, shellfdmin, openMax)
      ensures ok ==>
                fds.Keys <= old(fds).Keys + {r.fd} + PipeInput(r, e) + PipeCopy(old(Abs()), r, e, keep, shellfdmin, openMax)
      ensures keep ==> lost' <= lost + PipeInput(r, e)
      ensures keep && FreeFrom(old(fds), shellfdmin, openMax) != {} ==> lost' == lost
      ensures keep ==> Prepends(save', save, PipeInput(r, e), if r.kind == Pipe then 1 else 0)
      ensures Keeps(old(fds), fds, {r.fd} + PipeInput(r, e))
    {
      ghost var s0 := Abs();
      var failed, fd, keepopen;
      failed, fd, keepopen, save', lost' := OpenTarget(r, e, opts, keep, save, pre, lost);
      if failed {
        return false, save', lost';
      }
      ok := MoveOpened(r, e, opts, fd, keepopen, keep, save', pre, lost', s0);
    }

    /**
      `MoveTarget` for a descriptor the kind opened from the state `s0`:
      the move works exactly when the item succeeds from `s0`, beyond what
      the kind opened only the target is open, and beyond what the kind
      changed only the target has changed.
    */
    method MoveOpened(r: Redir, e: Env, opts: Options, fd: int, keepopen: bool, keep: bool,
                      ghost save: seq<SaveEntry>, ghost pre: FdState, ghost lost: set<int>, ghost s0: FdState)
      returns (ok: bool)
      requires Valid() && 0 <= r.fd && !IsShellFd(r.fd) && Ready(fds, r, e, opts.noclobber, fd, keepopen)
      requires keep ==>
                 && Tracks(if fd >= 0 && !keepopen then Abs().Without(fd) else Abs(), save, pre, lost, openMax)
                 && r.fd in Origins(save) + lost
      requires !keepopen ==> fd !in s0.fds
      requires fds.Keys <= s0.fds.Keys + (if keepopen then {} else {fd}) + PipeInput(r, e)
                           + PipeCopy(s0, r, e, keep, shellfdmin, openMax)
      requires Keeps(s0.fds, fds, PipeInput(r, e))
      requires MoveWorks(fds, fd, r.fd, openMax) <==> ItemSucceeds(s0, r, e, opts, keep, shellfdmin, openMax)
      modifies this`fds
      ensures Valid() && Members() == old(Members()) && shellfdmin == old(shellfdmin)
      ensures keep ==> Tracks(Abs(), save, pre, lost, openMax)
      ensures ok <==> ItemSucceeds(s0, r, e, opts, keep, shellfdmin, openMax)
      ensures ok ==> r.fd < FdSetSize && !IsShellFd(r.fd) && Opened(fds, r, e, opts.noclobber)
      ensures ok ==> fds.Keys <= s0.fds.Keys + {r.fd} + PipeInput(r, e) + PipeCopy(s0, r, e, keep, shellfdmin, openMax)
      ensures Keeps(s0.fds, fds, {r.fd} + PipeInput(r, e))
    {
      ghost var held := fds;
      ok := MoveTarget(r, e, opts.noclobber, fd, keepopen, keep, save, pre, lost);
      MovedKeys(s0.fds.Keys, held.Keys, fds.Keys, PipeInput(r, e) + PipeCopy(s0, r, e, keep, shellfdmin, openMax),
                fd, r.fd, keepopen);
      KeepsTrans(s0.fds, held, fds, PipeInput(r, e), {r.fd} + (if keepopen then {} else {fd}), {r.fd} + PipeInput(r, e));
    }

    /** The descriptors open after a move: the target and what the kind added beyond the descriptor it moved. */
    static lemma MovedKeys(before: set<int>, held: set<int>, after: set<int>, extra: set<int>, fd: int, rd: int, keepopen: bool)
      requires !keepopen ==> fd >= 0
      requires held <= before + (if keepopen then {} else {fd}) + extra
      requires after <= held + {rd}
      requires fd >= 0 && fd != rd && !keepopen ==> fd !in after
      ensures after <= before + {rd} + extra
    {
    }

    /** `is_stdin_redirected = true` once a redirection of descriptor 0 has succeeded. */
    method MarkStdinRedirected(keep: bool, ghost save: seq<SaveEntry>, ghost pre: FdState, ghost lost: set<int>)
      requires Valid()
      requires keep ==> Tracks(Abs(), save, pre, lost, openMax) && 0 in Origins(save) + lost
      modifies this`isStdinRedirected
      ensures Valid() && isStdinRedirected && shellfdmin == old(shellfdmin)
      ensures keep ==> Tracks(Abs(), save, pre, lost, openMax)
    {
      ghost var s := Abs();
      isStdinRedirected := true;
      if keep {
        TracksAfterFlag(s, true, save, pre, lost, openMax);
      }
    }

    /** The move step of an item (redir.c:413-422): the descriptor the kind opened is moved into place. */
    method MoveTarget(r: Redir, e: Env, noclobber: bool, fd: int, keepopen: bool, keep: bool,
                      ghost save: seq<SaveEntry>, ghost pre: FdState, ghost lost: set<int>)
      returns (ok: bool)
      requires Valid() && 0 <= r.fd && !IsShellFd(r.fd) && Ready(fds, r, e, noclobber, fd, keepopen)
      requires keep ==>
                 && Tracks(if fd >= 0 && !keepopen then Abs().Without(fd) else Abs(), save, pre, lost, openMax)
                 && r.fd in Origins(save) + lost
      modifies this`fds
      ensures Valid() && Members() == old(Members()) && shellfdmin == old(shellfdmin)
      ensures keep ==> Tracks(Abs(), save, pre, lost, openMax)
      ensures (ok, fds) == Move(old(fds), fd, r.fd, keepopen, openMax)
      ensures Keeps(old(fds), fds, {r.fd} + (if keepopen then {} else {fd}))
      ensures ok <==> MoveWorks(old(fds), fd, r.fd, openMax)
      ensures ok ==> Opened(fds, r, e, noclobber)
      ensures fds.Keys <= old(fds).Keys + {r.fd}
      ensures fd >= 0 && fd != r.fd && !keepopen ==> fd !in fds
    {
      ghost var base := if fd >= 0 && !keepopen then Abs().Without(fd) else Abs();
      ghost var t := fds;
      ok := MoveIntoPlace(fd, r.fd, keepopen);
      MoveTouchesOnlyTarget(t, fd, r.fd, keepopen, openMax);
      MoveSucceeds(t, fd, r.fd, keepopen, openMax);
      if ok {
        MovedIsOpened(t, r, e, noclobber, fd, keepopen, openMax);
      }
      if keep {
        TracksAfterChange(base, Abs(), save, pre, lost, openMax, r.fd);
      }
    }

    /**
      One item of `open_redirections` (the body of its loop, redir.c:317-427):
      the target is checked before anything happens, the filename is
      expanded, the target is saved, and the rest is `OpenAndMove`. `ok` is
      false when the item stops the list.
    */
    method OpenRedirection(r: Redir, e: Env, opts: Options, keep: bool, save: seq<SaveEntry>,
                           ghost pre: FdState, ghost lost: set<int>)
      returns (ok: bool, save': seq<SaveEntry>, ghost lost': set<int>)
      requires Valid() && WritesSettle(r.kind, e)
      requires keep ==> Tracks(Abs(), save, pre, lost, openMax)
      modifies this`fds, this`nextPipe, this`shellfdmax, shellfds, this`isStdinRedirected
      ensures Valid() && shellfdmin == old(shellfdmin)
      ensures !keep ==> save' == save && lost' == lost
      ensures keep ==> Tracks(Abs(), save', pre, lost', openMax)
      ensures keep ==> Origins(save) <= Origins(save') && lost <= lost'
      ensures r.fd < 0 || old(IsShellFd(r.fd)) || (r.kind.ExpandsFilename() && e.expanded.None?) ==>
                !ok && save' == save && lost' == lost && Abs() == old(Abs())
      ensures keep && 0 <= r.fd && !old(IsShellFd(r.fd)) && !(r.kind.ExpandsFilename() && e.expanded.None?) ==>
                r.fd in Origins(save') + lost'
      ensures ok ==> 0 <= r.fd < FdSetSize && !IsShellFd(r.fd) && Opened(fds, r, e, opts.noclobber)
      ensures ok <==> ItemOk(old(Abs()), r, e, opts, keep, shellfdmin, openMax)
      ensures keep ==> lost' <= lost + {r.fd} + PipeInput(r, e)
      ensures keep && |FreeFrom(old(fds), shellfdmin, openMax)| >= 2 ==> lost' == lost
      ensures ok ==> |FreeFrom(fds, shellfdmin, openMax)| + 4 >= |FreeFrom(old(fds), shellfdmin, openMax)|
      ensures isStdinRedirected == (old(isStdinRedirected) || (ok && r.fd == 0))
      ensures keep ==> Prepends(save', save, {r.fd} + PipeInput(r, e), if r.kind == Pipe then 2 else 1)
      ensures Keeps(old(fds), fds, {r.fd} + PipeInput(r, e))
    {
      if r.fd < 0 || IsShellFd(r.fd) {
        return false, save, lost;
      }
      if r.kind.ExpandsFilename() && e.expanded.None? {
        return false, save, lost;
      }
      ok, save', lost' := SaveAndOpen(r, e, opts, keep, save, pre, lost);
    }

    /** An item whose target has been checked: the target is saved (redir.c:339) and the rest is `OpenAndMove`. */
    method SaveAndOpen(r: Redir, e: Env, opts: Options, keep: bool, save: seq<SaveEntry>,
                       ghost pre: FdState, ghost lost: set<int>)
      returns (ok: bool, save': seq<SaveEntry>, ghost lost': set<int>)
      requires Valid() && 0 <= r.fd && !IsShellFd(r.fd) && WritesSettle(r.kind, e)
      requires r.kind.ExpandsFilename() ==> e.expanded.Some?
      requires keep ==> Tracks(Abs(), save, pre, lost, openMax)
      modifies this`fds, this`nextPipe, this`shellfdmax, shellfds, this`isStdinRedirected
      ensures Valid() && shellfdmin == old(shellfdmin)
      ensures !keep ==> save' == save && lost' == lost
      ensures keep ==> Tracks(Abs(), save', pre, lost', openMax)
      ensures keep ==> Origins(save) <= Origins(save') && lost <= lost' && r.fd in Origins(save') + lost'
      ensures ok ==> r.fd < FdSetSize && !IsShellFd(r.fd) && Opened(fds, r, e, opts.noclobber)
      ensures ok <==> ItemSucceeds(AfterSave(old(Abs()), r.fd, keep, shellfdmin, openMax), r, e, opts, keep, shellfdmin, openMax)
      ensures keep ==> lost' <= lost + {r.fd} + PipeInput(r, e)
      ensures keep && |FreeFrom(old(fds), shellfdmin, openMax)| >= 2 ==> lost' == lost
      ensures ok ==> |FreeFrom(fds, shellfdmin, openMax)| + 4 >= |FreeFrom(old(fds), shellfdmin, openMax)|
      ensures isStdinRedirected == (old(isStdinRedirected) || (ok && r.fd == 0))
      ensures keep ==> Prepends(save', save, {r.fd} + PipeInput(r, e), if r.kind == Pipe then 2 else 1)
      ensures keep && SaveStep(old(Abs()), r.fd, shellfdmin, openMax).Some? ==>
                |save| < |save'| && save'[|save'| - |save| - 1] == SaveStep(old(Abs()), r.fd, shellfdmin, openMax).value.1
      ensures keep && SaveStep(old(Abs()), r.fd, shellfdmin, openMax).None? ==> Prepends(save', save, PipeInput(r, e), 1)
      ensures Keeps(old(fds), fds, {r.fd} + PipeInput(r, e))
    {
      ghost var t := fds;
      ghost var copy := CopySet(fds, r.fd, keep, shellfdmin, openMax);
      save', lost' := SaveFd(r.fd, keep, save, pre, lost);
      FreeShrinksBy(t, fds, copy, shellfdmin, openMax);
      ghost var saved := save';
      ghost var given := lost';
      ghost var held := fds;
      ok, save', lost' := OpenAndMove(r, e, opts, keep, save', pre, lost');
      assert keep ==> Origins(saved) <= Origins(save') && given <= lost';
      if keep {
        PrependsTrans(save, saved, save', {r.fd}, PipeInput(r, e), 1, if r.kind == Pipe then 1 else 0);
      }
      KeepsTrans(t, held, fds, {}, {r.fd} + PipeInput(r, e), {r.fd} + PipeInput(r, e));
    }

    /**
      The invariant of the loop of `open_redirections` after `n` items:
      the save list tracks the starting state `pre`, and `trace` runs from
      `pre` to the present state as `Progress` says.
    */
    ghost predicate Looping(rs: seq<Redir>, envs: seq<Env>, opts: Options, keep: bool, save: seq<SaveEntry>,
                            pre: FdState, lost: set<int>, n: nat, trace: seq<FdState>)
      reads this, shellfds
    {
      && Valid()
      && (!keep ==> save == [] && lost == {})
      && (keep ==> Tracks(Abs(), save, pre, lost, openMax))
      && Progress(rs, envs, opts, keep, shellfdmin, openMax, trace, lost, n)
      && (keep ==> Origins(save) <= Exposed(rs, envs, n))
      && trace[0] == pre && trace[n] == Abs()
    }

    /**
      How the loop of `open_redirections` ends when item `n` fails, `trace`
      being the states the items up to it started from: the save list still
      tracks `pre`, item `n` did not satisfy `ItemOk`, and what was lost,
      what the list restores and what changed are all among the targets and
      `>>|` inputs of the items up to `n`.
    */
    ghost predicate Stopped(rs: seq<Redir>, envs: seq<Env>, opts: Options, keep: bool, save: seq<SaveEntry>,
                            pre: FdState, lost: set<int>, n: nat, trace: seq<FdState>)
      reads this, shellfds
    {
      && Valid()
      && n < |rs| && Ran(rs, envs, opts, keep, shellfdmin, openMax, trace, n) && trace[0] == pre
      && (!keep ==> save == [] && lost == {})
      && (keep ==> Tracks(Abs(), save, pre, lost, openMax))
      && !ItemOk(trace[n], rs[n], envs[n], opts, keep, shellfdmin, openMax)
      && (keep ==> lost <= Exposed(rs, envs, n + 1) && Origins(save) <= Exposed(rs, envs, n + 1))
      && (keep && |FreeFrom(trace[0].fds, shellfdmin, openMax)| >= 4 * |rs| ==> lost == {})
      && Keeps(trace[0].fds, fds, Exposed(rs, envs, n + 1))
    }

    /**
      One turn of the loop of `open_redirections`: item `n` is opened from
      the last state of `trace`, and on success the trace gains the state
      it leaves.
    */
    method OpenNext(rs: seq<Redir>, envs: seq<Env>, opts: Options, keep: bool, save: seq<SaveEntry>,
                    ghost pre: FdState, ghost lost: set<int>, n: nat, ghost trace: seq<FdState>)
      returns (ok: bool, save': seq<SaveEntry>, ghost lost': set<int>, ghost trace': seq<FdState>)
      requires Looping(rs, envs, opts, keep, save, pre, lost, n, trace)
      requires n < |rs| && WritesSettle(rs[n].kind, envs[n])
      modifies this`fds, this`nextPipe, this`shellfdmax, shellfds, this`isStdinRedirected
      ensures isStdinRedirected == (old(isStdinRedirected) || (ok && rs[n].fd == 0))
      ensures ok ==> Looping(rs, envs, opts, keep, save', pre, lost', n + 1, trace') && trace' == trace + [Abs()]
      ensures !ok ==> trace' == trace && Stopped(rs, envs, opts, keep, save', pre, lost', n, trace)
    {
      ok, save', lost' := OpenRedirection(rs[n], envs[n], opts, keep, save, pre, lost);
      if keep {
        PrependsOrigins(save', save, {rs[n].fd} + PipeInput(rs[n], envs[n]), if rs[n].kind == Pipe then 2 else 1);
      }
      if ok {
        trace' := trace + [Abs()];
        ProgressStep(rs, envs, opts, keep, shellfdmin, openMax, trace, lost, n, Abs(), lost');
      } else {
        trace' := trace;
        ProgressStops(rs, envs, opts, keep, shellfdmin, openMax, trace, lost, n, lost');
        KeepsTrans(trace[0].fds, trace[n].fds, fds, Exposed(rs, envs, n), {rs[n].fd} + PipeInput(rs[n], envs[n]),
                   Exposed(rs, envs, n + 1));
      }
    }

    /**
      `open_redirections`: the items are opened in order and the first
      failure stops the list; `done` counts the items that succeeded. With
      `keep` (a non-NULL `save`) the returned list undoes everything done:
      undoing it gives back the starting state at every descriptor outside
      `lost` (the targets whose original could not be copied), and exactly
      the starting state when `lost` is empty. A transaction relies on the
      registry's invariant that every shell FD is open, which holds because
      a shell FD is unregistered before it is closed.
    */
    method OpenRedirections(rs: seq<Redir>, envs: seq<Env>, opts: Options, keep: bool)
      returns (ok: bool, save: seq<SaveEntry>, ghost lost: set<int>, done: nat, ghost trace: seq<FdState>)
      requires Valid() && |envs| == |rs|
      requires forall i :: 0 <= i < |rs| ==> WritesSettle(rs[i].kind, envs[i])
      requires keep ==> Members() <= fds.Keys
      modifies this`fds, this`nextPipe, this`shellfdmax, shellfds, this`isStdinRedirected
      ensures Valid()
      ensures done <= |rs| && (ok <==> done == |rs|)
      ensures !keep ==> save == [] && lost == {}
      ensures forall i :: 0 <= i < done ==> 0 <= rs[i].fd < FdSetSize
      ensures isStdinRedirected == (old(isStdinRedirected) || TargetsStdin(rs[..done]))
      ensures keep ==> Members() <= fds.Keys
      ensures keep ==> Tracks(Abs(), save, old(Abs()), lost, openMax)
      ensures keep && lost == {} ==> Undo(Abs(), save, openMax) == old(Abs())
      ensures |trace| == done + 1 && trace[0] == old(Abs())
      ensures forall i :: 0 <= i < done ==>
                ItemOk(trace[i], rs[i], envs[i], opts, keep, shellfdmin, openMax) && Opened(trace[i + 1].fds, rs[i], envs[i], opts.noclobber)
      ensures ok ==> trace[done] == Abs()
      ensures !ok ==> !ItemOk(trace[done], rs[done], envs[done], opts, keep, shellfdmin, openMax)
      ensures keep ==> lost <= Exposed(rs, envs, if ok then done else done + 1)
      ensures keep && |FreeFrom(old(fds), shellfdmin, openMax)| >= 4 * |rs| ==> lost == {}
      ensures Keeps(old(fds), fds, Exposed(rs, envs, if ok then done else done + 1))
      ensures keep ==> Origins(save) <= Exposed(rs, envs, if ok then done else done + 1)
    {
      if keep {
        TracksAtStart(Abs(), openMax);
      }
      ok, save, lost, done, trace := OpenEach(rs, envs, opts, keep);
      RanTargets(rs, envs, opts, keep, shellfdmin, openMax, trace, done);
      if keep && lost == {} {
        UndoTracked(Abs(), save, old(Abs()), openMax);
      }
    }

    /**
      The loop of `open_redirections` (redir.c:314-430).
    */
    method OpenEach(rs: seq<Redir>, envs: seq<Env>, opts: Options, keep: bool)
      returns (ok: bool, save: seq<SaveEntry>, ghost lost: set<int>, done: nat, ghost trace: seq<FdState>)
      requires Valid() && |envs| == |rs|
      requires forall i :: 0 <= i < |rs| ==> WritesSettle(rs[i].kind, envs[i])
      requires keep ==> Tracks(Abs(), [], Abs(), {}, openMax)
      modifies this`fds, this`nextPipe, this`shellfdmax, shellfds, this`isStdinRedirected
      ensures done <= |rs| && (ok <==> done == |rs|)
      ensures isStdinRedirected == (old(isStdinRedirected) || TargetsStdin(rs[..done]))
      ensures ok ==> Looping(rs, envs, opts, keep, save, old(Abs()), lost, done, trace)
      ensures !ok ==> Stopped(rs, envs, opts, keep, save, old(Abs()), lost, done, trace)
    {
      ghost var pre := Abs();
      save, lost, done, trace := [], {}, 0, [pre];
      ok := true;
      while done < |rs|
        invariant Looping(rs, envs, opts, keep, save, pre, lost, done, trace)
        invariant isStdinRedirected == (old(isStdinRedirected) || TargetsStdin(rs[..done]))
        decreases |rs| - done
      {
        var itemOk;
        itemOk, save, lost, trace := OpenNext(rs, envs, opts, keep, save, pre, lost, done, trace);
        if !itemOk {
          ok := false;
          break;
        }
        TargetsStdinStep(rs, done);
        done := done + 1;
      }
    }

    /**
      `maybe_redirect_stdin_to_devnull`: unless job control is on (in POSIX
      mode: unless the shell is interactive) or stdin is already redirected,
      descriptor 0 is closed and /dev/null opened in its place. The freshly
      closed 0 is the lowest free descriptor, so the `fd > 0` branch of the
      source is never taken. `devNull` is whether the file system lets
      /dev/null be opened; when it does not, descriptor 0 stays closed, and
      the stdin flag is set either way.
    */
    method MaybeRedirectStdinToDevnull(opts: Options, devNull: bool)
      requires Valid()
      modifies this`fds, this`isStdinRedirected
      ensures Valid()
      ensures (if opts.posixlyCorrect then opts.interactive else opts.jobControl) || old(isStdinRedirected) ==>
                fds == old(fds) && isStdinRedirected == old(isStdinRedirected)
      ensures !(if opts.posixlyCorrect then opts.interactive else opts.jobControl) && !old(isStdinRedirected) ==>
                && isStdinRedirected
                && fds == if devNull && 0 < openMax then old(fds)[0 := Desc(DevNull, ReadOnly)] else old(fds) - {0}
    {
      if (if opts.posixlyCorrect then opts.interactive else opts.jobControl) || isStdinRedirected {
        return;
      }
      var _ := XClose(0);
      var fd := -1;
      if devNull {
        fd := Open(Desc(DevNull, ReadOnly));
      }
      if fd > 0 {
        // descriptor 0 was free, so `open` cannot have returned more than 0
        assert false;
      }
      isStdinRedirected := true;
    }

    /** `clear_shellfds`: close and forget every shell FD unless `leavefds`; always forget `ttyfd`. */
    method ClearShellFds(leavefds: bool)
      requires Valid()
      modifies this`fds, this`shellfdmax, this`ttyfd, shellfds
      ensures Valid() && ttyfd == -1
      ensures leavefds ==> fds == old(fds) && Members() == old(Members()) && shellfdmax == old(shellfdmax)
      ensures !leavefds ==> fds == old(fds) - old(Members()) && Members() == {} && shellfdmax == -1
    {
      if !leavefds {
        var fd := 0;
        while fd <= shellfdmax
          invariant 0 <= fd <= shellfdmax + 1 || fd == 0
          invariant forall k :: k in fds <==> k in old(fds) && !(0 <= k < fd && k in old(Members()))
          invariant forall k :: k in fds ==> fds[k] == old(fds)[k]
          modifies this`fds
        {
          if shellfds[fd] {
            var _ := XClose(fd);
          }
          fd := fd + 1;
        }
        assert Members() == old(Members());
        MaxIsGreatestMember();
        assert fd > shellfdmax;
        forall k | k in old(Members())
          ensures k !in fds
        {
          assert k <= shellfdmax;
        }
        assert fds.Keys == (old(fds) - old(Members())).Keys;
        forall i | 0 <= i < shellfds.Length {
          shellfds[i] := false;
        }
        shellfdmax := -1;
      }
      ttyfd := -1;
    }
  }
}
