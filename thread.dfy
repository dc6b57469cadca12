/** run_thread as main.c runs it: each OS call is a method on the state it
    changes, and the reset loop and the three-way branch are proved to do what
    Reset.ResetFrom and Spawn.RunThreadSpec say. */
module SpawnThread {
  import opened Signals
  import opened Reset
  import opened Spawn

  /** The signal state seen by the code running run_thread: the thread's
      mask, its process's disposition table (indexed by signal number), the
      global `status` that waitpid writes, and the calls made so far. In the
      child continuation the mask and table are the child's own copies. */
  class Thread {
    var mask: SigSet
    const actions: array<Action>
    var status: WaitStatus
    ghost var log: seq<Event>

    ghost predicate Valid()
      reads this
    {
      actions.Length == NSIG
    }

    constructor (mask0: SigSet, table: seq<Action>, status0: WaitStatus)
      requires |table| == NSIG
      ensures Valid() && fresh(actions)
      ensures mask == mask0 && actions[..] == table && status == status0 && log == []
    {
      mask := mask0;
      actions := new Action[NSIG](i => if 0 <= i < |table| then table[i] else ResetAction);
      status := status0;
      log := [];
    }

    /** pthread_sigmask(SIG_BLOCK, &signal_mask, &old_signal_mask) with
        signal_mask filled by sigfillset (main.c:81, 105). */
    method BlockAll() returns (saved: SigSet)
      modifies this`mask, this`log
      ensures saved == old(mask) && mask == old(mask) + Fill
      ensures log == old(log) + [Event(Call.BlockAll, old(mask))]
    {
      saved := mask;
      log := log + [Event(Call.BlockAll, mask)];
      mask := mask + Fill;
    }

    /** pthread_sigmask(SIG_SETMASK, &to, NULL). */
    method SetMask(to: SigSet)
      modifies this`mask, this`log
      ensures mask == to
      ensures log == old(log) + [Event(Call.SetMask(to), old(mask))]
    {
      log := log + [Event(Call.SetMask(to), mask)];
      mask := to;
    }

    /** vfork(): the value it returns in the continuation being run. */
    method VFork(os: Os) returns (child: int)
      modifies this`log
      ensures child == os.vfork
      ensures log == old(log) + [Event(Call.VFork, mask)]
    {
      log := log + [Event(Call.VFork, mask)];
      child := os.vfork;
    }

    /** sigemptyset(&empty_mask): 0 and the empty set, or -1. */
    method EmptySet(os: Os) returns (ret: int, empty: SigSet)
      modifies this`log
      ensures ret == 0 <==> os.emptySetOk
      ensures empty == {}
      ensures log == old(log) + [Event(Call.EmptySet, mask)]
    {
      log := log + [Event(Call.EmptySet, mask)];
      ret := if os.emptySetOk then 0 else -1;
      empty := {};
    }

    /** sigaction(sig, NULL, &oldsa): on success, oldsa is the current disposition. */
    method QueryAction(os: Os, sig: Signal) returns (ret: int, oldsa: Action)
      requires Valid() && os.Valid() && 0 <= sig < NSIG
      modifies this`log
      ensures ret == 0 <==> os.queryOk[sig]
      ensures ret == 0 ==> oldsa == actions[sig]
      ensures log == old(log) + [Event(Call.Query(sig), mask)]
    {
      log := log + [Event(Call.Query(sig), mask)];
      ret := if os.queryOk[sig] then 0 else -1;
      oldsa := actions[sig];
    }

    /** sigaction(sig, &act, NULL): on success the entry becomes act; on
        failure it is unchanged and errno says why. */
    method SetAction(os: Os, sig: Signal, act: Action) returns (ret: int, errno: Errno)
      requires Valid() && os.Valid() && 0 <= sig < NSIG
      modifies actions, this`log
      ensures ret == 0 <==> os.setResult[sig] == SetOk
      ensures ret != 0 ==> errno == os.setResult[sig].errno
      ensures actions[..] == if ret == 0 then old(actions[..])[sig := act] else old(actions[..])
      ensures log == old(log) + [Event(Call.SetDefault(sig), mask)]
    {
      log := log + [Event(Call.SetDefault(sig), mask)];
      match os.setResult[sig]
      case SetOk =>
        actions[sig] := act;
        ret, errno := 0, EINVAL;
      case SetFailed(e) =>
        ret, errno := -1, e;
    }

    /** execve(filename, new_argv, new_envp): true when the image was
        replaced, so the call never returns. */
    method ExecVe(os: Os) returns (replaced: bool)
      modifies this`log
      ensures replaced == os.execOk
      ensures log == old(log) + [Event(Call.Exec, mask)]
    {
      log := log + [Event(Call.Exec, mask)];
      replaced := os.execOk;
    }

    /** perror(...): a diagnostic on the standard error stream. */
    method Perror()
      modifies this`log
      ensures log == old(log) + [Event(Call.Perror, mask)]
    {
      log := log + [Event(Call.Perror, mask)];
    }

    /** waitpid(pid, &status, 0): on success it stores the child's status. */
    method WaitPid(os: Os, pid: int) returns (waited: int)
      modifies this`status, this`log
      ensures waited == os.waited
      ensures status == if waited == -1 then old(status) else os.status
      ensures log == old(log) + [Event(Call.WaitPid(pid), mask)]
    {
      log := log + [Event(Call.WaitPid(pid), mask)];
      waited := os.waited;
      if waited != -1 {
        status := os.status;
      }
    }

    /** printf of the helper's fate. */
    method PrintReport(report: Report)
      modifies this`log
      ensures log == old(log) + [Event(Call.Print(report), mask)]
    {
      log := log + [Event(Call.Print(report), mask)];
    }

    /** One pass of the child's loop (main.c:142-158): query signal sig and,
        when it holds a custom handler, set it to newsa. dies is true when
        that set failed with an errno other than EINVAL (the caller then
        calls _exit(2)); otherwise the table is as Reset.Next says. */
    method ResetSignal(os: Os, newsa: Action, sig: Signal) returns (dies: bool)
      requires Valid() && os.Valid() && newsa == ResetAction && 0 <= sig < NSIG
      modifies actions, this`log
      ensures var t := old(actions[..]);
        dies == Fatal(t, os, sig) &&
        actions[..] == (if dies then t else Next(t, os, sig)) &&
        log == old(log) + Calls(t, mask, os, sig)
    {
      ghost var l0 := log;
      var ret, oldsa := QueryAction(os, sig);
      dies := false;
      if ret == 0 && oldsa.handler != Ignore && oldsa.handler != Default {
        var errno;
        ret, errno := SetAction(os, sig, newsa);
        AppendAssoc(l0, [Event(Query(sig), mask)], [Event(SetDefault(sig), mask)]);
        if ret != 0 && errno != EINVAL {
          dies := true;
        }
      }
    }

    /** The child's loop over signals 0 .. NSIG-1 (main.c:140-160): a custom
        handler is set to newsa; a failed query skips the signal, a failed
        set is skipped when errno is EINVAL, and any other failed set ends
        the child (died is true; the caller calls _exit(2)). */
    method ResetDispositions(os: Os, newsa: Action) returns (died: bool)
      requires Valid() && os.Valid() && newsa == ResetAction
      modifies actions, this`log
      ensures var r := ResetFrom(old(actions[..]), mask, os, 0);
        actions[..] == r.table && log == old(log) + r.events && died == r.end.Died?
    {
      ghost var m := mask;
      ghost var full := ResetFrom(actions[..], m, os, 0);
      ghost var done: seq<Event> := [];
      ghost var t := actions[..];
      var i := 0;
      while i < NSIG
        invariant 0 <= i <= NSIG && |t| == NSIG && mask == m
        invariant actions[..] == t && log == old(log) + done
        invariant Resumes(full, done, ResetFrom(t, m, os, i))
      {
        ghost var calls := Calls(t, m, os, i);
        AppendAssoc(old(log), done, calls);
        var dies := ResetSignal(os, newsa, i);
        if dies {
          ResetDies(full, done, t, m, os, i);
          died := true;
          return;
        }
        ResetStep(full, done, t, m, os, i);
        done := done + calls;
        t := Next(t, os, i);
        i := i + 1;
      }
      ResetFinish(full, done, t, m, os);
      died := false;
    }

    /** The child continuation (main.c:125-178): vfork returned 0, every
        signal is blocked and oldMask holds the mask from before. */
    method RunChild(os: Os, oldMask: SigSet) returns (outcome: Outcome)
      requires Valid() && os.Valid() && mask == oldMask + Fill
      modifies this, actions
      ensures var r := ChildRun(oldMask, old(actions[..]), old(status), os);
        mask == r.mask && actions[..] == r.table && status == r.status &&
        log == old(log) + r.events && outcome == r.outcome
    {
      ghost var l0 := log;
      ghost var e1 := [Event(Call.EmptySet, mask)];
      var ret, emptyMask := EmptySet(os);
      if ret != 0 {
        return ChildExit(1);
      }
      var newsa := Action(Default, emptyMask, 0);
      var died := ResetDispositions(os, newsa);
      ghost var e2 := e1 + ResetFrom(old(actions[..]), mask, os, 0).events;
      AppendAssoc(l0, e1, e2[1..]);
      assert e2 == e1 + e2[1..];
      if died {
        return ChildExit(2);
      }
      SetMask(oldMask);
      var replaced := ExecVe(os);
      ghost var tail := [Event(Call.SetMask(oldMask), oldMask + Fill), Event(Call.Exec, oldMask)];
      AppendAssoc(l0, e2, tail);
      assert log == (l0 + e2) + tail;
      if replaced {
        return ImageReplaced;
      }
      return ChildExit(3);
    }

    /** The parent continuations (main.c:179-215): vfork returned child,
        which is not 0 (-1 when it failed), every signal is blocked and
        oldMask holds the mask from before. */
    method RunParent(os: Os, child: int, oldMask: SigSet) returns (outcome: Outcome)
      requires child == os.vfork && child != 0 && mask == oldMask + Fill
      modifies this
      ensures var r := ParentRun(oldMask, actions[..], old(status), os);
        mask == r.mask && status == r.status && log == old(log) + r.events && outcome == r.outcome
    {
      if child == -1 {
        SetMask(oldMask);
        Perror();
        return ParentExit(EXIT_FAILURE);
      } else {
        SetMask(oldMask);
        var waited := WaitPid(os, child);
        if waited == -1 {
          Perror();
          return ParentExit(EXIT_FAILURE);
        }
        if status.Exited? {
          PrintReport(ExitedWith(status.code));
        } else if status.Signaled? {
          PrintReport(KilledBy(status.sig));
        }
        return ThreadReturn;
      }
    }

    /** run_thread (main.c:60-216) for the OS results `os`. */
    method RunThread(os: Os) returns (outcome: Outcome)
      requires Valid() && os.Valid()
      modifies this, actions
      ensures var r := RunThreadSpec(old(mask), old(actions[..]), old(status), os);
        mask == r.mask && actions[..] == r.table && status == r.status &&
        log == old(log) + r.events && outcome == r.outcome
    {
      ghost var m0, t0, s0, l0 := mask, actions[..], status, log;
      ghost var start := [Event(Call.BlockAll, m0), Event(Call.VFork, m0 + Fill)];
      var oldMask := BlockAll();
      var child := VFork(os);
      AppendAssoc(l0, [start[0]], [start[1]]);
      ghost var l1 := log;
      assert l1 == l0 + start;
      ghost var c := if child == 0 then ChildRun(m0, t0, s0, os) else ParentRun(m0, t0, s0, os);
      assert RunThreadSpec(m0, t0, s0, os).events == start + c.events;
      if child == 0 {
        // every path of the child block ends in _exit or a successful execve
        outcome := RunChild(os, oldMask);
        AppendAssoc(l0, start, c.events);
        return;
      }
      outcome := RunParent(os, child, oldMask);
      assert log == l1 + c.events;
      AppendAssoc(l0, start, c.events);
    }
  }
}
