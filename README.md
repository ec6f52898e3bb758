# yash redirections, modelled in Dafny

This project models the redirection engine of the yash shell (`redir.c`):

- the registry of **shell FDs**, the descriptors the shell reserves for itself (`shellfds`, `shellfdmin`, `shellfdmax`);
- the **save/undo transaction** that `open_redirections`, `save_fd`, `undo_redirections` and `clear_savefd` run around a command;
- the per-kind logic that opens each redirection:
  - file flags and noclobber;
  - `<&`/`>&` duplication with `parse_and_check_dup`;
  - `>>|` pipes with `parse_and_exec_pipe`;
  - here-documents and here-strings, through a pipe or a temporary file written by `write_all`;
  - the parent's side of process redirection;
- the `xclose`/`xdup2` wrappers and `maybe_redirect_stdin_to_devnull`.

The kernel is abstract. A process's descriptor table is a map from descriptor numbers to open-file descriptions (`Kernel.Table`). `open`, `dup`, `fcntl(F_DUPFD)` and `pipe` hand out the lowest free number at or above a floor and below the process limit `openMax`. `dup2` closes its target first.

The shell's mutable state is the class `Redir.Shell`:

- the table;
- the `shellfds` bitmap as a `bool` array of FD_SETSIZE entries;
- `shellfdmin`, `shellfdmax`, `ttyfd` and `is_stdin_redirected`.

The save list (`savefd_T`) is a sequence, newest record first, as the C list is built by prepending. The pure functions `Transaction.Undo` and `Transaction.Commit` say what `undo_redirections` and `clear_savefd` do to the part of the state a transaction touches (`FdState`). The two methods are proved against them.

The central property is the transaction invariant `Transaction.Tracks(s, save, pre, lost, limit)`. It says that undoing `save` from the current state `s` gives back the starting state `pre` everywhere except at the descriptors in `lost`. Those are the descriptors whose original could not be copied because `save_fd` failed for a reason other than EBADF; the C code reports that failure and carries on. The model corrects the two defects listed under "## Findings": the descriptor leaked by a failing move, and the pipe copy that takes the output's number. With those corrections, every step of `open_redirections` keeps the invariant: the copy, the kind's own work, the move into place and the stdin flag. The C code as written does not keep it; the findings give inputs that break it. So `Redir.Shell.OpenRedirections` ends with the invariant, whether the list succeeds or stops at a failing item. When nothing was lost, undoing the returned list restores the starting state exactly. Nothing is lost when at least four descriptors per item are free at or above `shellfdmin`.

Which items succeed is stated without reference to the code that opens them:

- `Redir.FreshOpens` covers the kinds that open a new descriptor.
- `Redir.PipeFits` covers the pipe of `>>|`.
- `Redir.HereOpens` covers here-documents and here-strings.
- `Redir.ItemSucceeds` covers the whole switch and the move.
- `Redir.ItemOk` adds the checks on the target and the save.

`OpenRedirections` returns a ghost trace of the state each item started from. It proves that every item before the stopping point satisfies `ItemOk` from its state, and that the item it stopped at does not.

Two more predicates say what a step leaves alone:

- `Kernel.Keeps(t, t', changed)`: every descriptor open in `t` outside `changed` is open in `t'` with the same description. Every step from `xdup2` up to `OpenRedirections` names the descriptors it may change this way, with or without a save list.
- `Transaction.Prepends(save', save, origins, most)`: the list only grew in front, by at most `most` records, each restoring a descriptor in `origins`.

The loop's invariant is `Redir.Shell.Looping`, built on `Redir.Progress` and `Redir.Ran`; a failing item ends the loop in `Redir.Shell.Stopped`.

What the shell asks of code outside `redir.c` comes in as a per-item `Redirection.Env` value:

- the expanded filename or here-document text;
- whether the path exists, and whether the file system permits the open;
- whether /dev/null can be opened;
- the temporary file;
- the successive replies of `write`;
- whether `fork` succeeds.

## Model

| member | source | states |
|---|---|---|
| Kernel.Dup2 | redir.c:78-93 | `xdup2` closes the target first; the target then refers to the source's description exactly when `dup2` succeeds; no other descriptor changes |
| Redir.Shell.XClose | redir.c:58-73 | closing removes the descriptor; closing one that is not open (EBADF) is reported as success; the registry is untouched and no descriptor appears |
| Redir.Shell.XDup2 | redir.c:78-93 | the new table is `Dup2` of the old one; the result is `newfd` on success and -1 otherwise; the registry is untouched and no descriptor at or beyond the process limit appears |
| Writing.WriteAll | redir.c:98-109 | what reaches the file is always a prefix of the data; the call succeeds iff all of it was written iff no `write` failed before the end |
| ShellFd.ToCInt | redir.c:156 | the `long` from `sysconf` stored in an `int` wraps modulo 2^32 and is unchanged when it fits |
| ShellFd.CHalf | redir.c:163 | `shellfdmin /= 2` truncates toward zero |
| ShellFd.ShellFdMinFor | redir.c:153-169 | the floor is always within [10, 100]; -1 with errno set gives 10 and without it 100; otherwise half the limit, clamped to that range |
| ShellFd.LargeLimitWraps | redir.c:155-164 | a limit of 2^32 + 64 descriptors gives the floor 32, because the value wraps before it is halved |
| ShellFd.AddAsWrittenProbesPastBitmap | redir.c:172-179 | as written, adding FD_SETSIZE to an empty registry sets `shellfdmax` to FD_SETSIZE, so `clear_shellfds` then tests a bit past the bitmap |
| Redir.Shell.constructor | redir.c:139-150 | `init_shellfds`: an empty registry with `shellfdmax` -1, the floor from `sysconf`, no tty descriptor, stdin not redirected |
| Redir.Shell.ResetShellFdMin | redir.c:153-169 | the floor becomes `ShellFdMinFor` of the `sysconf` answer; the registry stays valid |
| Redir.Shell.AddShellFd | redir.c:172-179 | a descriptor below FD_SETSIZE joins the members and raises `shellfdmax` to it if it is greater; one beyond the bitmap changes nothing |
| Redir.Shell.RemoveShellFd | redir.c:183-193 | exactly `fd` leaves the members; the downward scan restores the invariant that `shellfdmax` is the greatest member |
| Redir.Shell.MaxIsGreatestMember | redir.c:124-126 | `shellfdmax` is -1 exactly when the registry is empty, and otherwise the greatest member |
| Redir.Shell.IsShellFd | redir.c:197-200 | a descriptor is a shell FD iff it is at least FD_SETSIZE or a member; a negative one never is |
| Redir.Shell.ClearShellFds | redir.c:204-214 | unless `leavefds`, exactly the members are closed, the registry empties and `shellfdmax` becomes -1; `ttyfd` is always forgotten |
| Redir.Shell.DupFrom | redir.c:221-225 | `fcntl(F_DUPFD, from)` gives the lowest free descriptor at or above `from`, a copy of `fd`; it fails with EBADF iff `fd` is not open, and otherwise only when no descriptor is free |
| Redir.Shell.MakePipe | redir.c:669-670 | `pipe` succeeds iff two descriptors are free. The read end is then the lowest free descriptor and the write end the lowest free one above it, every lower descriptor being open; nothing else changes. On failure nothing changes |
| Redir.Shell.CopyAsShellFd | redir.c:219-233 | the copy is the lowest free descriptor at or above `shellfdmin` and is registered; EBADF iff the original is not open; on failure nothing changes |
| Redir.Shell.SaveFd | redir.c:450-469 | nothing happens without a save list. Otherwise one of three things happens: a record with the copy is pushed; a record with -1 is pushed when `fd` is not open; or, when the copy fails otherwise, no record is pushed and `fd` joins the lost descriptors. So the list gains at most one record, in front, and it restores `fd`. Each case keeps the transaction invariant |
| Transaction.PrependsTrans | redir.c:463-468 | two runs of pushes in front of the list make one, whose records restore the descriptors of either run and number at most the sum; the records of the first run keep their place |
| Transaction.PrependsOrigins | redir.c:463-468 | after records were pushed in front, the list restores only what it restored before and what the pushed records restore |
| Redir.Shell.UndoRedirections | redir.c:838-854 | the new state is `Undo` of the old one; exactly the saved copies are unregistered; the stdin flag takes the oldest record's value |
| Redir.Shell.ClearSavefd | redir.c:858-870 | the new state is `Commit` of the old one: exactly the saved copies are closed and unregistered |
| Transaction.UndoLeavesOldestFlag | redir.c:838-854 | after undoing a non-empty list, `is_stdin_redirected` holds the value saved in the oldest record |
| Transaction.UndoUnregistersCopies | redir.c:838-854 | an undo unregisters every saved copy and no other shell FD |
| Transaction.CommitReleasesOnlyCopies | redir.c:858-870 | a commit closes and unregisters exactly the saved copies and leaves every other descriptor and the flag alone |
| Transaction.UndoIgnoresChangeAt | redir.c:838-854 | a change at a descriptor that is no saved copy alters an undo's outcome at most there, and not at all when the list restores that descriptor |
| Transaction.UndoAfterCopy | redir.c:456-468 | the record of a fresh registered copy is undone by its own step: the original comes back and the copy is closed and unregistered |
| Transaction.UndoAfterClosedSave | redir.c:456-468 | the record of a descriptor that was not open is undone by closing it again |
| Transaction.TracksAfterLostSave | redir.c:458-461 | a descriptor whose copy failed is given up on; the invariant still holds for all the others |
| Transaction.TracksAfterChange | redir.c:413-422 | once a user descriptor is saved (or given up on), the redirection may change it freely without breaking the invariant |
| Transaction.UndoTracked | redir.c:311-431 | with no lost descriptor, undoing the list gives back exactly the starting state |
| Transaction.SavedCopy | redir.c:456-468 | a copy is made only with a save list and an open descriptor; it is free, in range and at or above the floor |
| Transaction.AfterSave | redir.c:456-468 | saving opens exactly the copy, if one is made |
| FdNumber.ParseFdNumber | redir.c:583-589 | the number is accepted iff it is a non-empty string of decimal digits whose value fits an `int`, and then the result is that value |
| FdNumber.NegativeParseUnreachable | redir.c:586-588 | the ERANGE branch for a negative result is dead: a text starting with a hexadecimal digit has no sign |
| FdNumber.ParseDecimal | redir.c:583-589 | every descriptor number an `int` can hold parses back from its decimal numeral |
| Redirection.FlagsFor | redir.c:349-365 | `>` with noclobber on a regular (or missing) file opens with O_EXCL. Otherwise `>` and the clobber operator truncate, `>>` appends and `<>` opens read-write. Every kind but `<` creates the file. `<` and `<>` read and all but `<` write |
| Redirection.NoclobberProtectsRegularFiles | redir.c:352-358 | with noclobber, `>` never opens an existing regular file, while the clobber operator does and `>` without noclobber does |
| Redirection.HereText | redir.c:744-746 | the delivered text is the contents followed by a newline exactly when one is to be appended |
| Redirection.MoveTouchesOnlyTarget | redir.c:413-422 | the move changes nothing but the target once the descriptor the item opened is discounted: every other descriptor keeps its description. That descriptor never stays open unless kept, and on success the target refers to its description. `-` closes the target |
| Redirection.MoveSucceeds | redir.c:413-422 | the move succeeds iff `MoveWorks` holds: there is nothing to move, it only closes the target, or the descriptor is open and the target below the process limit |
| Redirection.MovedIsOpened | redir.c:413-422 | a successful move leaves the target referring to what the item's kind opened |
| Redirection.MoveAsWrittenLeaks | redir.c:414-419 | as written, a failing `xdup2` returns before the descriptor the item opened is closed; the corrected move closes it |
| Redir.Shell.MoveIntoPlace | redir.c:413-422 | the new table and result are those of the corrected `Move` |
| Redir.Shell.OpenFile | redir.c:365-374 | the open succeeds iff the flags allow it on this file and a descriptor is free; the file is then at the lowest free descriptor with the flags' access mode |
| Redir.Shell.ParseAndCheckDup | redir.c:576-630 | -1 iff the text is `-`. The result is a descriptor iff the number parses, is no shell FD and, in POSIX mode, is open with the access `<&` or `>&` needs; that descriptor is the parsed number. -2 in every other case |
| Redir.Shell.ParseAndExecPipe | redir.c:641-703 | a malformed number, input equal to output, or an input that is a shell FD gives -2 with nothing changed. The call succeeds iff, after the input is saved, the output is no shell FD, the copy did not take the output's number and the pipe fits. On success the input holds the read end of a new pipe and the returned descriptor, new and in range, its write end; no descriptor other than those two and the copy is opened. The transaction invariant holds with the write end discounted, and the input is lost only when no descriptor at or above `shellfdmin` was free. Every descriptor but the input keeps its description, failure or not, and the list gains at most one record, which restores the input |
| Redir.Shell.PlumbPipe | redir.c:669-702 | succeeds iff `pipe` finds two descriptors, a write end that took the input's number finds a third, and the input is a legal number. On success the input holds the read end and the returned descriptor the write end, both of a new pipe, and nothing else changes. On failure no pipe descriptor stays open and at most the input was closed |
| Redir.Shell.ExecPipe | redir.c:667-691 | after the number has been checked, the input is saved. The call succeeds iff the output is no shell FD after the save, the copy did not take the output's number and the pipe fits. On success the two pipe ends are at the input and at a new descriptor, and exactly those and the copy are newly open; the invariant holds with the write end discounted. Every descriptor but the input keeps its description, and the list gains at most one record, which restores the input |
| Redir.Shell.PlumbTracked | redir.c:669-691 | the pipe of a saved input succeeds iff `PipeFits` holds, opens exactly the input and the write end, and keeps the invariant with the write end discounted; every descriptor but the input keeps its description and the registry is untouched |
| Redir.Shell.WriteEndOffInput | redir.c:673-679 | a write end that did not take the input's number is returned untouched. One that did is moved to the lowest free descriptor, and this succeeds iff one is free. If the move fails, both ends are closed |
| Redir.Shell.ReadEndOntoInput | redir.c:682-690 | succeeds iff the input is a legal number. The read end then sits at the input descriptor and the write end is returned; on failure both ends are closed |
| Redir.Shell.OpenHerestring | redir.c:731-781 | succeeds iff /dev/null, a pipe or a temporary file can be opened, in that order of preference. Empty text without newline is read from /dev/null when that opens, and only such text is. Text of at most PIPE_BUF bytes goes through a pipe whenever two descriptors are free, and is delivered whole. Otherwise a temporary file delivers a prefix, all of it iff every `write` succeeded. Failure leaves the table alone |
| Redir.Shell.OpenHeredocument | redir.c:710-723 | a failed expansion gives -1. Otherwise the contents are opened as a here-string without a newline, and the call succeeds exactly when that does. The result is readable and delivers the whole contents through /dev/null or a pipe. Through a temporary file it delivers a prefix, all of it iff every `write` succeeded |
| Redir.Shell.OpenProcessRedirection | redir.c:786-811 | succeeds iff `fork` succeeds and two descriptors are free. A failed `fork` gives -1 with both ends closed; otherwise the parent keeps only the read end for `<(...)` or only the write end for `>(...)` |
| Redir.Shell.OpenFresh | redir.c:347-409 | file, here-document, here-string and process items fail iff `FreshOpens` is false, and then change nothing. Otherwise they open exactly one new descriptor with what their kind demands |
| Redir.Shell.OpenTarget | redir.c:345-410 | the kind's switch. A duplication is the result of `parse_and_check_dup` and changes nothing; a file item fails iff the open is refused or no descriptor is free. The switch succeeds and the descriptor can be moved iff `ItemSucceeds` holds. Every success leaves the descriptor ready to move, opens nothing but it, the pipe's input and its copy, and keeps the invariant. Every descriptor but the pipe's input keeps its description. Only the pipe kind pushes a record, at most one, restoring its input; only that input can be lost, and only when nothing at or above `shellfdmin` was free |
| Redir.Shell.OpenFreshTarget | redir.c:347-409 | for the kinds that open a new descriptor: failure iff `FreshOpens` is false, with nothing changed. Otherwise one new, legal descriptor ready to move is open and nothing else changes |
| Redir.Shell.OpenPipeTarget | redir.c:383-388 | a `>>\|` item succeeds, together with its move, iff `ItemSucceeds` holds. It opens only the write end, the input and the input's copy, and keeps the invariant with the write end discounted. Every descriptor but the input keeps its description, and at most one record, restoring the input, is pushed |
| Redir.Shell.MoveTarget | redir.c:413-422 | the result and the new table are exactly those of the corrected `Move`. It succeeds iff there is nothing to move, the item only closes the target, or the descriptor is open and the target is a legal number. On success the target refers to what the kind opened. The move opens nothing but the target, closes the descriptor the item opened unless it is kept, leaves every other descriptor's description alone, and keeps the transaction invariant |
| Redir.Shell.MoveOpened | redir.c:413-422 | the move of what the switch opened from the state `s0` succeeds iff `ItemSucceeds` holds in `s0`; the target then refers to what the kind opened. Afterwards nothing but the target, the pipe's input and its copy is newly open, every descriptor of `s0` but the target and the pipe's input keeps its description, and the invariant holds |
| Redir.Shell.MarkStdinRedirected | redir.c:425-426 | setting `is_stdin_redirected` once descriptor 0 has been saved keeps the invariant |
| Redir.Shell.OpenAndMove | redir.c:345-426 | a checked and saved item succeeds iff `ItemSucceeds` holds, and its target then refers to what the kind opened. It uses at most three free descriptors at or above `shellfdmin` and keeps the invariant. Every descriptor but the target and the pipe's input keeps its description. It pushes at most the pipe's one record, restoring the input, and loses at most that input, only when none of those descriptors was free. The flag is set iff it succeeds on descriptor 0 |
| Redir.Shell.PlaceTarget | redir.c:345-422 | the switch and the move together succeed iff `ItemSucceeds` holds. They open nothing but the target, the pipe's input and its copy, leave every other descriptor's description alone, push at most the pipe's one record, restoring the input, and keep the invariant |
| Redir.Shell.SaveAndOpen | redir.c:342-426 | after a checked target is saved, the item succeeds iff `ItemSucceeds` holds in the state the save leaves; the target is then never lost if two descriptors at or above `shellfdmin` were free. The list gains at most two records in front, each restoring the target or the pipe's input. When `save_fd` pushes one for the target, that is the oldest of them and is the record `SaveStep` gives; when it pushes none, at most the pipe's record is added. Every descriptor but the target and the pipe's input keeps its description |
| Redir.Shell.OpenRedirection | redir.c:315-426 | one item succeeds iff `ItemOk` holds: the target is legal and no shell FD, the filename expands, and after the save the kind opens and moves. Otherwise it fails; a bad target or failed expansion changes nothing. On success the target refers to what the kind opened, and at most four free descriptors at or above `shellfdmin` are used. The invariant always holds, and at most the target and the pipe's input are lost, none when two descriptors at or above `shellfdmin` were free. Success or not, every descriptor but the target and the pipe's input keeps its description, and the list gains at most two records in front, each restoring one of those two |
| Redir.Shell.OpenRedirections | redir.c:311-431 | items run in order until the first failure; success iff all ran. The trace shows that each item run satisfied `ItemOk` from the state it started in and left its target opened, and that the item it stopped at did not. The stdin flag is set iff an item that succeeded targets 0. Every descriptor other than the targets and pipe inputs of the items run, the failing one included, keeps its description, with or without a save list. With a save list the invariant holds against the starting state, and every record and every lost descriptor is among those targets and inputs. Nothing is lost when at least four descriptors per item were free at or above `shellfdmin`, and undoing then restores the starting state exactly |
| Redir.Shell.OpenNext | redir.c:314-429 | one turn of the loop. A success extends the trace by the new state and keeps the loop's invariant `Looping`; a failure ends it as `Stopped` says: the item's `ItemOk` does not hold, and what was lost, what the list restores and what changed are among the targets and inputs named up to it |
| Redir.Shell.OpenEach | redir.c:314-431 | the loop: it runs every item and ends in `Looping`, or stops at the first failing item and ends in `Stopped`; the stdin flag is set iff a successful item targets 0 |
| Redir.ItemFreeBound | redir.c:345-422 | an item that opens nothing but its target, the pipe's input and that input's copy uses at most three free descriptors |
| Redir.ProgressStep | redir.c:314-429 | an item that satisfies `ItemOk`, opens its target, uses at most four free descriptors and changes only its target and pipe input extends the trace; every descriptor outside the targets and inputs named so far still has its starting description |
| Redir.ProgressStops | redir.c:314-429 | an item that fails leaves what was lost among the targets and inputs named so far, and nothing lost with four free descriptors per item |
| Redir.RanTargets | redir.c:311-431 | every item of a trace that ran named a legal target below FD_SETSIZE |
| Redir.TargetsStdinStep | redir.c:425-426 | one more item targets 0 iff it does itself or an earlier one did |
| Redir.TargetsStdin | redir.c:425-426 | some item of the list has descriptor 0 as its target |
| Redir.PipeCopyClobberedAsWritten | redir.c:668-691 | as written, `cmd 100>>\|5` with 5 open, 100 free and floor 100 saves 5 into 100, which the write end then overwrites; undoing leaves the pipe's write end at 5 |
| Redir.Shell.MaybeRedirectStdinToDevnull | redir.c:876-891 | with job control (in POSIX mode: an interactive shell), or stdin already redirected, nothing changes. Otherwise descriptor 0 becomes /dev/null when that can be opened and is closed when it cannot, and the flag is set either way |

## Left out

- Sockets (`open_socket`, the `/dev/tcp` and `/dev/udp` fallbacks of `open_file`) are not modelled.
- The child's side of `open_process_redirection` (moving the pipe end onto 0 or 1 and running the command) is not modelled; only `fork`'s success is an input.
- Filename and here-document expansion, `realloc_wcstombs`, `is_irregular_file`, `create_temporary_file` and `fork` are answers in `Env`. C strings are character sequences without NUL.
- `xstrtoi` is not part of this model. It is taken to accept exactly an optionally signed decimal numeral that fits an `int`, and to leave `errno` clear on success.
- `reopen_with_shellfd` and `open_ttyfd` are not modelled; `ttyfd` is only reset by `clear_shellfds`.
- EINTR retries, error messages, `free`, the `unlink` and `lseek` of the temporary file, and the `init_shellfds` assertion are not modelled.
- A failing `close` is not modelled: `xclose` always succeeds. The only `errno` values kept are EBADF, EMFILE and EINVAL.
- The process limit `openMax` is a constant; it does not change during a run.
- The close-on-exec flag set by F_DUPFD_CLOEXEC is not modelled.
- Redir.Shell.OpenHerestring: the pipe write is assumed to take the whole text at once, as PIPE_BUF guarantees; a failing `write` on a fresh pipe is not modelled.
- Writing.WriteAll: requires that the `write` replies settle (every byte written or a failure); a `write` that keeps returning 0 would loop forever in C.
- Redir.Shell.RemoveShellFd: requires a non-negative descriptor; every caller passes a saved copy.
- Redir.Shell.OpenRedirections: with a save list it requires that every shell FD is open. This holds in yash because a shell FD is unregistered before it is closed, but the invariant is not proved across the rest of the shell.
- Redir.Shell.MaybeRedirectStdinToDevnull: the `fd > 0` branch is proved dead under lowest-free allocation, so it holds no statements.
- Redir.PipeItemAsWritten covers only the path where every call succeeds and the pipe ends take numbers other than the two descriptors involved.
- Redir.Shell.OpenRedirections: nothing is shown to be lost only when at least four descriptors per item are free at or above `shellfdmin`; with fewer, what was lost is bounded by the items' targets and pipe inputs but not shown empty. At the targets and inputs themselves the contract states what `Opened` says, not the exact description each holds; every other descriptor is shown unchanged.
- Redir.Shell.ExecPipe: on success the write end, the input and the set of open descriptors are stated, and every other descriptor is shown unchanged; `Redir.Shell.PlumbTracked` and `Redir.Shell.PlumbPipe` state the exact table for the pipe step.

## Findings

| source | as written | input that shows it | evidently intended | confidence | as-written member | corrected member |
|---|---|---|---|---|---|---|
| redir.c:172-179 | `add_shellfd` raises `shellfdmax` for any descriptor, even one at or above FD_SETSIZE that it does not set in the bitmap. `clear_shellfds` (redir.c:207-209) and `remove_shellfd` then apply `FD_ISSET` past the end of the bitmap | `add_shellfd(1024)` on an empty registry, then `clear_shellfds(false)` | only descriptors that fit the bitmap update `shellfdmax` | not executed | ShellFd.AddAsWrittenProbesPastBitmap | Redir.Shell.AddShellFd |
| redir.c:414-419 | when `xdup2(fd, r->rd_fd)` fails, `open_redirections` returns before `xclose(fd)`, so the descriptor the item opened leaks | with 256 descriptors allowed, `cmd 300>file`: the file opens at 3, the move to 300 fails, and 3 stays open | close the descriptor the item opened on failure as well | not executed | Redirection.MoveAsWrittenLeaks | Redir.Shell.MoveIntoPlace |
| redir.c:668-691 | `parse_and_exec_pipe` saves the input descriptor with `save_fd` after the output descriptor was saved. When the output descriptor was not open, the copy can take its number. The caller's `xdup2(write end, rd_fd)` then closes that copy, and the record restores the input from the pipe's write end | `exec 5<file` then `cmd 100>>\|5` with 100 free and `shellfdmin` 100: 5 is saved into 100, 100 becomes the write end, and undoing puts the write end at 5 | a copy must never take the number of the output descriptor; the corrected model refuses the item when, after saving, the output descriptor is a shell FD | not executed | Redir.PipeCopyClobberedAsWritten | Redir.Shell.ParseAndExecPipe |
