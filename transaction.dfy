/**
  The save/undo transaction behind a command's redirections
  (`savefd_T`, `undo_redirections`, `clear_savefd` in redir.c), stated on
  values: the part of the shell's state a transaction touches, and what
  undoing or committing a save list does to it.  The list is kept newest
  first, as the C code prepends each record.
*/
module Transaction {
  import opened Wrappers
  import opened Kernel

  /** One `savefd_T` record. `copyFd` is -1 when `origFd` was not open. */
  datatype SaveEntry = SaveEntry(origFd: int, copyFd: int, stdinRedirected: bool)

  /**
    The state a transaction reads and writes: the descriptor table, the
    members of the shell-FD bitmap and the `is_stdin_redirected` flag.
  */
  datatype FdState = FdState(fds: Table, reg: set<int>, stdinRedirected: bool)
  {
    /** The same state with descriptor `fd` closed. */
    function Without(fd: int): FdState
    {
      this.(fds := fds - {fd})
    }
  }

  /** The registered copies a save list holds. */
  function Copies(save: seq<SaveEntry>): set<int>
  {
    set e | e in save && e.copyFd >= 0 :: e.copyFd
  }

  /** The descriptors a save list restores. */
  function Origins(save: seq<SaveEntry>): set<int>
  {
    set e | e in save :: e.origFd
  }

  /**
    The copy `save_fd(fd)` makes in `t`: with a save list and `fd` open,
    the lowest free descriptor at or above `floor`, if there is one.
  */
  function SavedCopy(t: Table, fd: int, keep: bool, floor: int, limit: int): (c: Option<int>)
    requires 0 <= floor
    ensures c.Some? ==> keep && fd in t && floor <= c.value < limit && c.value !in t
  {
    if keep && fd in t then LowestFree(t, floor, limit) else None
  }

  /** That copy as a set: empty when none is made. */
  function CopySet(t: Table, fd: int, keep: bool, floor: int, limit: int): (cs: set<int>)
    requires 0 <= floor
    ensures |cs| <= 1
  {
    match SavedCopy(t, fd, keep, floor, limit)
    case None => {}
    case Some(c) => {c}
  }

  /**
    The state after `save_fd(fd)`: the copy, when made, refers to `fd`'s
    description and is registered when it fits the bitmap.
  */
  function AfterSave(s: FdState, fd: int, keep: bool, floor: int, limit: int): (s': FdState)
    requires 0 <= floor
    ensures s'.fds.Keys == s.fds.Keys + CopySet(s.fds, fd, keep, floor, limit)
    ensures Keeps(s.fds, s'.fds, {})
  {
    match SavedCopy(s.fds, fd, keep, floor, limit)
    case None => s
    case Some(c) => FdState(s.fds[c := s.fds[fd]], s.reg + (if c < FdSetSize then {c} else {}), s.stdinRedirected)
  }

  /**
    One step of `undo_redirections`: unregister the copy, `xdup2` it back
    onto the original and close it; or close the original when there is no
    copy. The flag always takes the recorded value.
  */
  function UndoEntry(s: FdState, e: SaveEntry, limit: int): FdState
  {
    if e.copyFd >= 0 then
      FdState(Dup2(s.fds, e.copyFd, e.origFd, limit) - {e.copyFd}, s.reg - {e.copyFd}, e.stdinRedirected)
    else
      FdState(s.fds - {e.origFd}, s.reg, e.stdinRedirected)
  }

  /** `undo_redirections`: the records are consumed newest first. */
  function Undo(s: FdState, save: seq<SaveEntry>, limit: int): FdState
    decreases |save|
  {
    if save == [] then s else Undo(UndoEntry(s, save[0], limit), save[1..], limit)
  }

  /** One step of `clear_savefd`: only the copy is unregistered and closed. */
  function CommitEntry(s: FdState, e: SaveEntry): FdState
  {
    if e.copyFd >= 0 then FdState(s.fds - {e.copyFd}, s.reg - {e.copyFd}, s.stdinRedirected) else s
  }

  /** `clear_savefd`. */
  function Commit(s: FdState, save: seq<SaveEntry>): FdState
    decreases |save|
  {
    if save == [] then s else Commit(CommitEntry(s, save[0]), save[1..])
  }

  lemma CopiesCons(e: SaveEntry, save: seq<SaveEntry>)
    ensures Copies([e] + save) == (if e.copyFd >= 0 then {e.copyFd} else {}) + Copies(save)
    ensures Origins([e] + save) == {e.origFd} + Origins(save)
  {
    assert forall x :: x in [e] + save <==> x == e || x in save;
  }

  lemma ConsTail(e: SaveEntry, save: seq<SaveEntry>)
    ensures ([e] + save)[0] == e && ([e] + save)[1..] == save
  {
  }

  /** After an undo the flag holds the value saved in the oldest record. */
  lemma {:induction false} UndoLeavesOldestFlag(s: FdState, save: seq<SaveEntry>, limit: int)
    requires save != []
    ensures Undo(s, save, limit).stdinRedirected == save[|save| - 1].stdinRedirected
    decreases |save|
  {
    if |save| > 1 {
      UndoLeavesOldestFlag(UndoEntry(s, save[0], limit), save[1..], limit);
    }
  }

  /** An undo unregisters every saved copy and nothing else. */
  lemma {:induction false} UndoUnregistersCopies(s: FdState, save: seq<SaveEntry>, limit: int)
    ensures Undo(s, save, limit).reg == s.reg - Copies(save)
    decreases |save|
  {
    if save != [] {
      UndoUnregistersCopies(UndoEntry(s, save[0], limit), save[1..], limit);
      CopiesCons(save[0], save[1..]);
      assert [save[0]] + save[1..] == save;
    }
  }

  /**
    A commit closes and unregisters exactly the saved copies: every other
    descriptor, in particular every redirected original, and the flag are
    left as they are.
  */
  lemma {:induction false} CommitReleasesOnlyCopies(s: FdState, save: seq<SaveEntry>)
    ensures Commit(s, save) == FdState(s.fds - Copies(save), s.reg - Copies(save), s.stdinRedirected)
    decreases |save|
  {
    if save != [] {
      var e := save[0];
      CommitReleasesOnlyCopies(CommitEntry(s, e), save[1..]);
      CopiesCons(e, save[1..]);
      assert [e] + save[1..] == save;
      var c := if e.copyFd >= 0 then {e.copyFd} else {};
      assert CommitEntry(s, e).fds == s.fds - c;
      assert s.fds - c - Copies(save[1..]) == s.fds - Copies(save);
    }
  }

  /** The flag of the state an undo starts from does not matter once a record exists. */
  lemma UndoIgnoresFlag(s: FdState, b: bool, save: seq<SaveEntry>, limit: int)
    requires save != []
    ensures Undo(s.(stdinRedirected := b), save, limit) == Undo(s, save, limit)
  {
    assert UndoEntry(s.(stdinRedirected := b), save[0], limit) == UndoEntry(s, save[0], limit);
  }

  /**
    Changing one descriptor `x` that is no saved copy changes the outcome of
    an undo at most at `x`, and not at all when the list restores `x`.
  */
  lemma {:induction false} UndoIgnoresChangeAt(s: FdState, s': FdState, save: seq<SaveEntry>, limit: int, x: int)
    requires s'.reg == s.reg && s'.stdinRedirected == s.stdinRedirected
    requires s'.fds - {x} == s.fds - {x}
    requires x !in Copies(save)
    ensures Undo(s', save, limit).reg == Undo(s, save, limit).reg
    ensures Undo(s', save, limit).stdinRedirected == Undo(s, save, limit).stdinRedirected
    ensures Undo(s', save, limit).fds - {x} == Undo(s, save, limit).fds - {x}
    ensures x in Origins(save) ==> Undo(s', save, limit) == Undo(s, save, limit)
    decreases |save|
  {
    if save != [] {
      var e := save[0];
      CopiesCons(e, save[1..]);
      assert [e] + save[1..] == save;
      var t, t' := UndoEntry(s, e, limit), UndoEntry(s', e, limit);
      if e.copyFd >= 0 {
        Dup2ChangeAt(s.fds, s'.fds, e.copyFd, e.origFd, limit, x);
      } else {
        assert t'.fds - {x} == (s'.fds - {x}) - {e.origFd};
        assert t.fds - {x} == (s.fds - {x}) - {e.origFd};
      }
      assert t'.fds - {x} == t.fds - {x};
      if e.origFd == x {
        assert t'.fds == t.fds;
        assert t' == t;
      } else {
        UndoIgnoresChangeAt(t, t', save[1..], limit, x);
      }
    }
  }

  /** `Dup2` from a descriptor other than `x` followed by closing the source ignores `x`. */
  lemma Dup2ChangeAt(t: Table, t': Table, c: int, o: int, limit: int, x: int)
    requires t' - {x} == t - {x} && c != x
    ensures (Dup2(t', c, o, limit) - {c}) - {x} == (Dup2(t, c, o, limit) - {c}) - {x}
    ensures o == x ==> Dup2(t', c, o, limit) - {c} == Dup2(t, c, o, limit) - {c}
  {
    assert c in t' <==> c in t - {x};
    assert c in t' ==> t'[c] == (t - {x})[c];
    var d, d' := Dup2(t, c, o, limit) - {c}, Dup2(t', c, o, limit) - {c};
    forall k | k != x && k != o ensures (k in d' <==> k in d) && (k in d ==> d'[k] == d[k]) {
      assert k in d' <==> k in t' - {x} - {o} - {c};
      assert k in d <==> k in t - {x} - {o} - {c};
    }
    assert (o in d') == (o in d) && (o in d ==> d'[o] == d[o]);
  }

  /** Pushing the record of a fresh registered copy of `fd` is undone by its own first step. */
  lemma UndoAfterCopy(s: FdState, save: seq<SaveEntry>, limit: int, fd: int, c: int)
    requires fd in s.fds && 0 <= fd < limit && 0 <= c
    requires c !in s.fds && c !in s.reg
    ensures Undo(FdState(s.fds[c := s.fds[fd]], s.reg + (if c < FdSetSize then {c} else {}), s.stdinRedirected),
                 [SaveEntry(fd, c, s.stdinRedirected)] + save, limit)
         == Undo(s, save, limit)
  {
    var e := SaveEntry(fd, c, s.stdinRedirected);
    var s' := FdState(s.fds[c := s.fds[fd]], s.reg + (if c < FdSetSize then {c} else {}), s.stdinRedirected);
    ConsTail(e, save);
    assert Dup2(s'.fds, c, fd, limit) == s.fds[c := s.fds[fd]];
    assert s.fds[c := s.fds[fd]] - {c} == s.fds;
    assert UndoEntry(s', e, limit) == s;
  }

  /** Pushing the record of a descriptor that was not open is undone by its own first step. */
  lemma UndoAfterClosedSave(s: FdState, save: seq<SaveEntry>, limit: int, fd: int)
    requires fd !in s.fds
    ensures Undo(s, [SaveEntry(fd, -1, s.stdinRedirected)] + save, limit) == Undo(s, save, limit)
  {
    var e := SaveEntry(fd, -1, s.stdinRedirected);
    ConsTail(e, save);
    assert s.fds - {fd} == s.fds;
    assert UndoEntry(s, e, limit) == s;
  }

  /** Every saved copy is still open and, when it fits the bitmap, registered. */
  ghost predicate CopiesLive(s: FdState, save: seq<SaveEntry>)
  {
    forall c :: c in Copies(save) ==> c in s.fds && (c < FdSetSize ==> c in s.reg)
  }

  /**
    The invariant of a transaction under construction: undoing `save` from
    `s` gives back the state `pre` the transaction started from, except at
    the descriptors in `lost`, whose originals could not be saved.
  */
  ghost predicate Tracks(s: FdState, save: seq<SaveEntry>, pre: FdState, lost: set<int>, limit: int)
  {
    && s.reg <= s.fds.Keys
    && CopiesLive(s, save)
    && Undo(s, save, limit).reg == pre.reg
    && Undo(s, save, limit).fds - lost == pre.fds - lost
    && (lost == {} ==> Undo(s, save, limit).stdinRedirected == pre.stdinRedirected)
  }

  /**
    `save'` is `save` with at most `most` records pushed in front of it,
    each restoring a descriptor in `origins`; the records pushed before
    stay as they were.
  */
  ghost predicate Prepends(save': seq<SaveEntry>, save: seq<SaveEntry>, origins: set<int>, most: nat)
  {
    && |save| <= |save'| <= |save| + most
    && save'[|save'| - |save|..] == save
    && Origins(save'[..|save'| - |save|]) <= origins
  }

  lemma OriginsConcat(x: seq<SaveEntry>, y: seq<SaveEntry>)
    ensures Origins(x + y) == Origins(x) + Origins(y)
  {
    assert forall e :: e in x + y <==> e in x || e in y;
  }

  /** Pushing one record prepends it. */
  lemma PrependsOne(e: SaveEntry, save: seq<SaveEntry>)
    ensures Prepends([e] + save, save, {e.origFd}, 1)
  {
    assert ([e] + save)[..1] == [e];
  }

  /**
    Two runs of pushes make one: the counts and the descriptors add up,
    and the oldest record the first run pushed stays the oldest new one.
  */
  lemma PrependsTrans(a: seq<SaveEntry>, b: seq<SaveEntry>, c: seq<SaveEntry>, x: set<int>, y: set<int>, m: nat, k: nat)
    requires Prepends(b, a, x, m) && Prepends(c, b, y, k)
    ensures Prepends(c, a, x + y, m + k)
    ensures |a| < |b| ==> c[|c| - |a| - 1] == b[|b| - |a| - 1]
  {
    var nb, nc := |b| - |a|, |c| - |b|;
    assert c[|c| - |a|..] == c[nc..][nb..];
    assert c[..|c| - |a|] == c[..nc] + c[nc..][..nb];
    OriginsConcat(c[..nc], b[..nb]);
  }

  /** The descriptors a list restores after pushes: those it restored before and those of the new records. */
  lemma PrependsOrigins(save': seq<SaveEntry>, save: seq<SaveEntry>, origins: set<int>, most: nat)
    requires Prepends(save', save, origins, most)
    ensures Origins(save') <= Origins(save) + origins
  {
    var n := |save'| - |save|;
    assert save' == save'[..n] + save'[n..];
    OriginsConcat(save'[..n], save);
  }

  /** A transaction starts from a state whose registered descriptors are open. */
  lemma TracksAtStart(pre: FdState, limit: int)
    requires pre.reg <= pre.fds.Keys
    ensures Tracks(pre, [], pre, {}, limit)
  {
  }

  lemma TracksAfterCopy(s: FdState, save: seq<SaveEntry>, pre: FdState, lost: set<int>, limit: int, fd: int, c: int)
    requires Tracks(s, save, pre, lost, limit)
    requires fd in s.fds && 0 <= fd < limit && 0 <= c && c !in s.fds
    ensures Tracks(FdState(s.fds[c := s.fds[fd]], s.reg + (if c < FdSetSize then {c} else {}), s.stdinRedirected),
                   [SaveEntry(fd, c, s.stdinRedirected)] + save, pre, lost, limit)
  {
    UndoAfterCopy(s, save, limit, fd, c);
    CopiesCons(SaveEntry(fd, c, s.stdinRedirected), save);
  }

  lemma TracksAfterClosedSave(s: FdState, save: seq<SaveEntry>, pre: FdState, lost: set<int>, limit: int, fd: int)
    requires Tracks(s, save, pre, lost, limit)
    requires fd !in s.fds
    ensures Tracks(s, [SaveEntry(fd, -1, s.stdinRedirected)] + save, pre, lost, limit)
  {
    UndoAfterClosedSave(s, save, limit, fd);
    CopiesCons(SaveEntry(fd, -1, s.stdinRedirected), save);
  }

  /** A descriptor whose original could not be saved is given up on. */
  lemma TracksAfterLostSave(s: FdState, save: seq<SaveEntry>, pre: FdState, lost: set<int>, limit: int, fd: int)
    requires Tracks(s, save, pre, lost, limit)
    ensures Tracks(s, save, pre, lost + {fd}, limit)
  {
    var u := Undo(s, save, limit);
    assert u.fds - (lost + {fd}) == (u.fds - lost) - {fd};
    assert pre.fds - (lost + {fd}) == (pre.fds - lost) - {fd};
  }

  /** A user descriptor that is saved (or given up on) may be changed freely. */
  lemma TracksAfterChange(s: FdState, s': FdState, save: seq<SaveEntry>, pre: FdState, lost: set<int>, limit: int, x: int)
    requires Tracks(s, save, pre, lost, limit)
    requires s'.reg == s.reg && s'.stdinRedirected == s.stdinRedirected
    requires s'.fds - {x} == s.fds - {x}
    requires 0 <= x < FdSetSize && x !in s.reg
    requires x in Origins(save) || x in lost
    ensures Tracks(s', save, pre, lost, limit)
  {
    assert x !in Copies(save);
    UndoIgnoresChangeAt(s, s', save, limit, x);
    forall r | r in s'.reg ensures r in s'.fds {
      assert r in s.fds - {x};
    }
    forall c | c in Copies(save) ensures c in s'.fds {
      assert c in s.fds - {x};
    }
    if x !in Origins(save) {
      var u, u' := Undo(s, save, limit), Undo(s', save, limit);
      assert u'.fds - lost == (u'.fds - {x}) - lost;
      assert u.fds - lost == (u.fds - {x}) - lost;
    }
  }

  /** With nothing given up on, undoing the list gives back exactly the starting state. */
  lemma UndoTracked(s: FdState, save: seq<SaveEntry>, pre: FdState, limit: int)
    requires Tracks(s, save, pre, {}, limit)
    ensures Undo(s, save, limit) == pre
  {
    var u := Undo(s, save, limit);
    assert u.fds == u.fds - {} && pre.fds == pre.fds - {};
  }

  /** Setting the flag is undone by any record. */
  lemma TracksAfterFlag(s: FdState, b: bool, save: seq<SaveEntry>, pre: FdState, lost: set<int>, limit: int)
    requires Tracks(s, save, pre, lost, limit)
    requires save != [] || lost != {}
    ensures Tracks(s.(stdinRedirected := b), save, pre, lost, limit)
  {
    if save != [] {
      UndoIgnoresFlag(s, b, save, limit);
    }
  }
}
