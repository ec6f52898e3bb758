/**
  Redirection items as the parser hands them to the engine, the answers of
  the collaborators outside redir.c for one item, and the choice of `open`
  flags by redirection kind (redir.c:349-365).
*/
module Redirection {
  import opened Wrappers
  import opened Kernel
  import opened FdNumber

  /** `redirtype_T`. */
  datatype RedirKind =
    | Input | Output | Clobber | Append | InOut
    | DupIn | DupOut | Pipe
    | Here | HereRaw | HereStr
    | ProcIn | ProcOut
  {
    /** The kinds that open a named file. */
    predicate OpensFile()
    {
      this == Input || this == Output || this == Clobber || this == Append || this == InOut
    }

    /** The kinds whose filename word `open_redirections` expands (redir.c:330-332). */
    predicate ExpandsFilename()
    {
      OpensFile() || this == DupIn || this == DupOut || this == Pipe || this == HereStr
    }
  }

  /** One `redir_T`: the target descriptor `rd_fd` and the kind. */
  datatype Redir = Redir(fd: int, kind: RedirKind)

  /** The `O_*` flags passed to `open`. */
  datatype Flags = Flags(access: Access, create: bool, exclusive: bool, truncate: bool, append: bool)

  /**
    The flags for a file redirection. `noclobber` is the shell option and
    `irregular` the answer of `is_irregular_file` for the target path.
  */
  function FlagsFor(kind: RedirKind, noclobber: bool, irregular: bool): (f: Flags)
    requires kind.OpensFile()
    ensures f.exclusive <==> kind == Output && noclobber && !irregular
    ensures f.truncate <==> kind == Clobber || (kind == Output && !f.exclusive)
    ensures f.create <==> kind != Input
    ensures f.append <==> kind == Append
    ensures Readable(f.access) <==> kind == Input || kind == InOut
    ensures Writable(f.access) <==> kind != Input
  {
    match kind
    case Input => Flags(ReadOnly, false, false, false, false)
    case Output =>
      if noclobber && !irregular then Flags(WriteOnly, true, true, false, false)
      else Flags(WriteOnly, true, false, true, false)
    case Clobber => Flags(WriteOnly, true, false, true, false)
    case Append => Flags(WriteOnly, true, false, false, true)
    case InOut => Flags(ReadWrite, true, false, false, false)
  }

  /** What the path names before the `open`. */
  datatype FileStatus = Missing | Regular | Irregular

  /**
    Whether `open(path, flags)` succeeds: O_EXCL refuses an existing file,
    a missing file needs O_CREAT, and `permitted` stands for every other
    reason the file system may refuse.
  */
  predicate OpenSucceeds(f: Flags, status: FileStatus, permitted: bool)
  {
    permitted && !(f.exclusive && status != Missing) && (f.create || status != Missing)
  }

  /**
    With noclobber set, `>` never opens an existing regular file, while `>|`
    and `>` without noclobber do whenever the file system permits.
  */
  lemma NoclobberProtectsRegularFiles(noclobber: bool)
    ensures noclobber ==> !OpenSucceeds(FlagsFor(Output, noclobber, false), Regular, true)
    ensures OpenSucceeds(FlagsFor(Clobber, noclobber, false), Regular, true)
    ensures !noclobber ==> OpenSucceeds(FlagsFor(Output, noclobber, false), Regular, true)
    ensures OpenSucceeds(FlagsFor(Output, noclobber, true), Irregular, true)
  {
  }

  /** The shell options and states redir.c reads. */
  datatype Options = Options(posixlyCorrect: bool, noclobber: bool, interactive: bool, jobControl: bool)

  /**
    What the collaborators outside redir.c answer while one item is opened:
    the expanded filename or here-document text (`None`: expansion failed),
    the status of the named path and whether the file system permits the
    open, the identity of the opened file, whether /dev/null can be opened,
    the temporary file `create_temporary_file` makes (`None`: it fails), the
    successive return values of `write` on it, and whether `fork` succeeds.
  */
  datatype Env = Env(
    expanded: Option<seq<char>>,
    status: FileStatus,
    permitted: bool,
    file: nat,
    devNull: bool,
    tempFile: Option<nat>,
    writes: seq<int>,
    forks: bool)

  /** The bytes a here-document or here-string delivers. */
  function HereText(s: seq<char>, appendNewline: bool): (t: seq<char>)
    ensures |t| == |s| + (if appendNewline then 1 else 0)
    ensures t[..|s|] == s
    ensures appendNewline ==> t[|s|] == '\n'
  {
    if appendNewline then s + ['\n'] else s
  }

  /**
    The descriptor an item's kind has opened, before it is moved: `fd` and
    `keepopen` as `open_redirections` holds them after its switch
    (redir.c:345-410), in the table `t`.
  */
  ghost predicate Ready(t: Table, r: Redir, e: Env, noclobber: bool, fd: int, keepopen: bool)
  {
    match r.kind
    case Input | Output | Clobber | Append | InOut =>
      !keepopen && 0 <= fd && fd in t && t[fd] == Desc(File(e.file), FlagsFor(r.kind, noclobber, e.status == Irregular).access)
    case DupIn | DupOut =>
      && keepopen && e.expanded.Some? && fd >= -1
      && (fd == -1 <==> e.expanded.value == "-")
      && (fd >= 0 ==> ParseFdNumber(e.expanded.value) == Some(fd))
    case Pipe =>
      && !keepopen && 0 <= fd && fd in t && t[fd].obj.PipeWrite? && t[fd].access == WriteOnly
      && e.expanded.Some? && ParseFdNumber(e.expanded.value).Some?
      && var input := ParseFdNumber(e.expanded.value).value;
         input != r.fd && input != fd && input in t && t[input] == Desc(PipeRead(t[fd].obj.pipe), ReadOnly)
    case Here | HereRaw | HereStr =>
      !keepopen && 0 <= fd && fd in t && Readable(t[fd].access)
    case ProcIn =>
      !keepopen && 0 <= fd && fd in t && t[fd].obj.PipeRead? && t[fd].access == ReadOnly
    case ProcOut =>
      !keepopen && 0 <= fd && fd in t && t[fd].obj.PipeWrite? && t[fd].access == WriteOnly
  }

  /** What the target of an item that succeeded refers to in the table `t`, kind by kind. */
  ghost predicate Opened(t: Table, r: Redir, e: Env, noclobber: bool)
  {
    match r.kind
    case Input | Output | Clobber | Append | InOut =>
      r.fd in t && t[r.fd] == Desc(File(e.file), FlagsFor(r.kind, noclobber, e.status == Irregular).access)
    case DupIn | DupOut =>
      && e.expanded.Some?
      && (e.expanded.value == "-" ==> r.fd !in t)
      && (ParseFdNumber(e.expanded.value).Some? && ParseFdNumber(e.expanded.value).value != r.fd ==>
            var v := ParseFdNumber(e.expanded.value).value;
            r.fd in t && v in t && t[r.fd] == t[v])
    case Pipe =>
      && r.fd in t && t[r.fd].obj.PipeWrite? && t[r.fd].access == WriteOnly
      && e.expanded.Some? && ParseFdNumber(e.expanded.value).Some?
      && var input := ParseFdNumber(e.expanded.value).value;
         input in t && t[input] == Desc(PipeRead(t[r.fd].obj.pipe), ReadOnly)
    case Here | HereRaw | HereStr =>
      r.fd in t && Readable(t[r.fd].access)
    case ProcIn =>
      r.fd in t && t[r.fd].obj.PipeRead? && t[r.fd].access == ReadOnly
    case ProcOut =>
      r.fd in t && t[r.fd].obj.PipeWrite? && t[r.fd].access == WriteOnly
  }

  /**
    The move step of `open_redirections` (redir.c:413-422), with a failing
    `xdup2` closing the descriptor the item opened: whether it succeeds,
    and the table after it.
  */
  function Move(t: Table, fd: int, rd: int, keepopen: bool, limit: int): (bool, Table)
  {
    if fd == rd then (true, t)
    else if fd < 0 then (true, t - {rd})
    else
      var moved := Dup2(t, fd, rd, limit);
      (Dup2Succeeds(t, fd, rd, limit), if keepopen then moved else moved - {fd})
  }

  /**
    Whether moving `fd` onto `rd` in `t` works: there is nothing to move,
    the move only closes `rd` (`<&-`), or the descriptor is open and `rd`
    is a legal number.
  */
  predicate MoveWorks(t: Table, fd: int, rd: int, limit: int)
  {
    fd == rd || fd < 0 || (fd in t && 0 <= rd < limit)
  }

  /** The move succeeds exactly when `MoveWorks` says it does. */
  lemma MoveSucceeds(t: Table, fd: int, rd: int, keepopen: bool, limit: int)
    ensures Move(t, fd, rd, keepopen, limit).0 <==> MoveWorks(t, fd, rd, limit)
  {
  }

  /**
    The move changes nothing but `rd` once the descriptor the item opened
    is discounted, and that descriptor never stays open: success or not.
  */
  lemma MoveTouchesOnlyTarget(t: Table, fd: int, rd: int, keepopen: bool, limit: int)
    ensures Move(t, fd, rd, keepopen, limit).1 - {rd} == (if fd >= 0 && !keepopen then t - {fd} else t) - {rd}
    ensures fd >= 0 && fd != rd && !keepopen ==> fd !in Move(t, fd, rd, keepopen, limit).1
    ensures Move(t, fd, rd, keepopen, limit).0 && fd >= 0 && fd != rd ==>
              rd in Move(t, fd, rd, keepopen, limit).1 && Move(t, fd, rd, keepopen, limit).1[rd] == t[fd]
    ensures fd < 0 && fd != rd ==> rd !in Move(t, fd, rd, keepopen, limit).1
    ensures keepopen && fd != rd && fd in t ==>
              fd in Move(t, fd, rd, keepopen, limit).1 && Move(t, fd, rd, keepopen, limit).1[fd] == t[fd]
    ensures Keeps(t, Move(t, fd, rd, keepopen, limit).1, {rd} + (if keepopen then {} else {fd}))
  {
    if fd >= 0 && fd != rd {
      var moved := Dup2(t, fd, rd, limit);
      assert (moved - {fd}) - {rd} == (t - {fd}) - {rd};
    }
  }

  /** An item whose descriptor is ready and whose move succeeds leaves its target opened as its kind says. */
  lemma MovedIsOpened(t: Table, r: Redir, e: Env, noclobber: bool, fd: int, keepopen: bool, limit: int)
    requires 0 <= r.fd && Ready(t, r, e, noclobber, fd, keepopen) && Move(t, fd, r.fd, keepopen, limit).0
    ensures Opened(Move(t, fd, r.fd, keepopen, limit).1, r, e, noclobber)
  {
    MoveTouchesOnlyTarget(t, fd, r.fd, keepopen, limit);
  }

  /**
    The move step as written (redir.c:414-416): a failing `xdup2` returns
    at once, before the descriptor the item opened is closed.
  */
  function MoveAsWritten(t: Table, fd: int, rd: int, keepopen: bool, limit: int): (bool, Table)
  {
    if fd == rd then (true, t)
    else if fd < 0 then (true, t - {rd})
    else if !Dup2Succeeds(t, fd, rd, limit) then (false, Dup2(t, fd, rd, limit))
    else (true, if keepopen then Dup2(t, fd, rd, limit) else Dup2(t, fd, rd, limit) - {fd})
  }

  /**
    With 256 descriptors allowed, `cmd 300>file` opens the file at 3, the
    move to 300 fails, and as written descriptor 3 stays open; the corrected
    move closes it.
  */
  lemma MoveAsWrittenLeaks()
    ensures var t := map[3 := Desc(File(0), WriteOnly)];
            && MoveAsWritten(t, 3, 300, false, 256) == (false, t)
            && Move(t, 3, 300, false, 256) == (false, map[])
  {
    var t := map[3 := Desc(File(0), WriteOnly)];
    assert t - {300} == t;
    assert t - {3} == map[];
  }
}
