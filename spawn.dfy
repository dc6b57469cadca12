/** run_thread of main.c (lines 60-216): block every signal, vfork, then either
    reset the child's dispositions, restore its mask and exec, or restore the
    parent's mask, reap the child and report how it ended. */
module Spawn {
  import opened Signals
  import opened Reset

  /** How a run of run_thread ends. */
  datatype Outcome =
    | ChildExit(code: int)   // the child called _exit(code)
    | ImageReplaced          // execve succeeded: the child runs the target program
    | ParentExit(code: int)  // the parent called exit(code)
    | ThreadReturn           // run_thread returned NULL

  /** The state after a run: the thread's mask, its process's disposition
      table, the global `status`, the calls made (with the mask in effect at
      each) and how the run ended. */
  datatype Run = Run(mask: SigSet, table: seq<Action>, status: WaitStatus, events: seq<Event>, outcome: Outcome)

  /** What the parent prints for a wait status: exited with its code, killed
      by its signal, or nothing for a status that is neither. */
  function ReportOf(status: WaitStatus, mask: SigSet): (r: seq<Event>)
    ensures |r| <= 1 && (r == [] <==> status.Unclassified?)
    ensures forall e :: e in r ==> e.mask == mask && e.call.Print?
    ensures status.Exited? ==> r == [Event(Print(ExitedWith(status.code)), mask)]
    ensures status.Signaled? ==> r == [Event(Print(KilledBy(status.sig)), mask)]
  {
    match status
    case Exited(code) => [Event(Print(ExitedWith(code)), mask)]
    case Signaled(sig) => [Event(Print(KilledBy(sig)), mask)]
    case Unclassified => []
  }

  /** Every call of `events` from index `from` on is made under `mask`. */
  predicate AllUnder(events: seq<Event>, from: nat, mask: SigSet)
  {
    forall k :: from <= k < |events| ==> events[k].mask == mask
  }

  /** The pids `events` waits for, in order. */
  function Waited(events: seq<Event>): seq<int>
  {
    if events == [] then []
    else (if events[0].call.WaitPid? then [events[0].call.pid] else []) + Waited(events[1..])
  }

  /** The child continuation (main.c:125-178), entered when vfork returns 0
      with every signal blocked and m0 saved: the calls it makes and how it
      ends. A failed sigemptyset ends it with 1, the reset loop may end it
      with 2, and a returning execve ends it with 3. */
  function ChildRun(m0: SigSet, t0: seq<Action>, s0: WaitStatus, os: Os): (r: Run)
    requires os.Valid() && |t0| == NSIG
    ensures |r.table| == NSIG && |r.events| >= 1 && r.status == s0
    ensures r.outcome.ChildExit? || r.outcome.ImageReplaced?
  {
    var blocked := m0 + Fill;
    var e1 := [Event(EmptySet, blocked)];
    if !os.emptySetOk then Run(blocked, t0, s0, e1, ChildExit(1))
    else
      var loop := ResetFrom(t0, blocked, os, 0);
      var e2 := e1 + loop.events;
      if loop.end.Died? then Run(blocked, loop.table, s0, e2, ChildExit(2))
      else
        var e3 := e2 + [Event(SetMask(m0), blocked), Event(Exec, m0)];
        Run(m0, loop.table, s0, e3, if os.execOk then ImageReplaced else ChildExit(3))
  }

  /** The parent continuations (main.c:179-215), entered when vfork returns
      a value other than 0 with every signal blocked and m0 saved. */
  function ParentRun(m0: SigSet, t0: seq<Action>, s0: WaitStatus, os: Os): (r: Run)
    requires os.vfork != 0
    // the old mask is restored first and stays in effect; the table is the parent's own
    ensures |r.events| >= 2 && r.events[0] == Event(SetMask(m0), m0 + Fill) &&
      AllUnder(r.events, 1, m0) && r.mask == m0 && r.table == t0
    ensures forall k :: 1 <= k < |r.events| ==> !r.events[k].call.SetMask?
    ensures os.vfork == -1 ==> r.outcome == ParentExit(EXIT_FAILURE) && r.events[1] == Event(Perror, m0)
    // the parent waits for the pid vfork returned; a failed wait is fatal,
    // otherwise the status is reported as decoded
    ensures os.vfork != -1 ==>
      r.events[1] == Event(WaitPid(os.vfork), m0) &&
      (r.outcome == ParentExit(EXIT_FAILURE) <==> os.waited == -1) &&
      (os.waited != -1 ==>
         r.outcome == ThreadReturn && r.status == os.status && r.events[2..] == ReportOf(os.status, m0))
  {
    var blocked := m0 + Fill;
    if os.vfork == -1 then
      Run(m0, t0, s0, [Event(SetMask(m0), blocked), Event(Perror, m0)], ParentExit(EXIT_FAILURE))
    else
      var e1 := [Event(SetMask(m0), blocked), Event(WaitPid(os.vfork), m0)];
      if os.waited == -1 then Run(m0, t0, s0, e1 + [Event(Perror, m0)], ParentExit(EXIT_FAILURE))
      else Run(m0, t0, os.status, e1 + ReportOf(os.status, m0), ThreadReturn)
  }

  /** One run of run_thread from mask m0, disposition table t0 and global
      status s0, with the OS results `os`: every signal is blocked and m0
      saved, vfork is called, and its result picks the continuation. */
  function RunThreadSpec(m0: SigSet, t0: seq<Action>, s0: WaitStatus, os: Os): (r: Run)
    requires os.Valid() && |t0| == NSIG
    ensures |r.table| == NSIG && |r.events| >= 3
    // every signal is blocked, and the old mask saved, just before vfork
    ensures r.events[0] == Event(BlockAll, m0) && r.events[1] == Event(VFork, m0 + Fill)
    // the vfork result picks the continuation
    ensures os.vfork == 0 <==> r.outcome.ChildExit? || r.outcome.ImageReplaced?
    // on both parent paths the old mask is restored first and stays in effect
    ensures os.vfork != 0 ==>
      r.events[2] == Event(SetMask(m0), m0 + Fill) && AllUnder(r.events, 3, m0) &&
      r.mask == m0 && r.table == t0
  {
    var c := if os.vfork == 0 then ChildRun(m0, t0, s0, os) else ParentRun(m0, t0, s0, os);
    c.(events := [Event(BlockAll, m0), Event(VFork, m0 + Fill)] + c.events)
  }

  /** The parent prints only what the decoded status says: exited with the
      status's code, or killed by its signal; it prints something whenever a
      successful wait returns a status of either kind. */
  lemma ParentReportsStatus(m0: SigSet, t0: seq<Action>, s0: WaitStatus, os: Os)
    requires os.vfork != 0
    ensures var r := ParentRun(m0, t0, s0, os);
      (forall e :: e in r.events && e.call.Print? ==>
         os.vfork != -1 && os.waited != -1 &&
         ((e.call.report.ExitedWith? && os.status == Exited(e.call.report.code)) ||
          (e.call.report.KilledBy? && os.status == Signaled(e.call.report.sig)))) &&
      (os.vfork != -1 && os.waited != -1 && !os.status.Unclassified? ==>
         exists e :: e in r.events && e.call.Print?)
  {
    var r := ParentRun(m0, t0, s0, os);
    if os.vfork != -1 && os.waited != -1 && !os.status.Unclassified? {
      assert r.events[2] in r.events;
    }
  }

  lemma {:induction false} WaitedAppend(a: seq<Event>, b: seq<Event>)
    ensures Waited(a + b) == Waited(a) + Waited(b)
  {
    if a == [] {
      assert a + b == b;
    } else {
      var head := if a[0].call.WaitPid? then [a[0].call.pid] else [];
      assert (a + b)[0] == a[0];
      assert (a + b)[1..] == a[1..] + b;
      assert Waited(a + b) == head + Waited(a[1..] + b);
      WaitedAppend(a[1..], b);
      assert Waited(a) == head + Waited(a[1..]);
    }
  }

  /** Calls of `events` that none but the child's own protocol makes:
      no wait, no diagnostic and no report. */
  predicate ChildCallsOnly(events: seq<Event>)
  {
    forall e :: e in events ==> !e.call.WaitPid? && !e.call.Perror? && !e.call.Print?
  }

  /** The child ends in one of its three reserved exits or in the new image;
      exit 1 comes only from sigemptyset, exit 2 exactly when some signal is
      Fatal, and the child never makes a call of the parent's side. */
  lemma ChildExits(m0: SigSet, t0: seq<Action>, s0: WaitStatus, os: Os)
    requires os.Valid() && |t0| == NSIG && os.vfork == 0
    ensures var r := RunThreadSpec(m0, t0, s0, os);
      r.outcome in {ChildExit(1), ChildExit(2), ChildExit(3), ImageReplaced} &&
      (r.outcome == ChildExit(1) <==> !os.emptySetOk) &&
      (r.outcome == ChildExit(2) <==> os.emptySetOk && exists j :: 0 <= j < NSIG && Fatal(t0, os, j)) &&
      (r.outcome == ImageReplaced <==> os.emptySetOk && os.execOk && forall j :: 0 <= j < NSIG ==> !Fatal(t0, os, j)) &&
      ChildCallsOnly(r.events)
  {
    ResetFromEnd(t0, m0 + Fill, os, 0);
    ResetFromCalls(t0, m0 + Fill, os, 0);
  }

  /** The child keeps every signal blocked from before vfork until its last
      call but one; if it reaches execve it restores the saved mask m0, not the
      all-blocked one, immediately before it. On the _exit(1) and _exit(2)
      paths the mask is never restored. */
  lemma ChildMaskAroundExec(m0: SigSet, t0: seq<Action>, s0: WaitStatus, os: Os)
    requires os.Valid() && |t0| == NSIG && os.vfork == 0
    ensures var r := RunThreadSpec(m0, t0, s0, os);
      var n := |r.events|;
      (r.outcome == ImageReplaced || r.outcome == ChildExit(3) ==>
         n >= 4 && r.events[n - 1] == Event(Exec, m0) && r.events[n - 2] == Event(SetMask(m0), m0 + Fill) &&
         AllUnder(r.events[..n - 1], 1, m0 + Fill) && r.mask == m0) &&
      (r.outcome == ChildExit(1) || r.outcome == ChildExit(2) ==>
         AllUnder(r.events, 1, m0 + Fill) && r.mask == m0 + Fill &&
         forall e :: e in r.events ==> !e.call.Exec? && !e.call.SetMask?)
  {
    ResetFromCalls(t0, m0 + Fill, os, 0);
  }

  /** After the child's loop no custom handler is left except on a signal
      whose query failed or whose reset failed with EINVAL; every other
      custom handler is now ResetAction, and SIG_IGN and SIG_DFL entries are
      untouched on every path. */
  lemma ChildResetsHandlers(m0: SigSet, t0: seq<Action>, s0: WaitStatus, os: Os)
    requires os.Valid() && |t0| == NSIG && os.vfork == 0
    ensures var r := RunThreadSpec(m0, t0, s0, os);
      (forall j :: 0 <= j < NSIG && !Resettable(t0[j]) ==> r.table[j] == t0[j]) &&
      (r.outcome == ImageReplaced || r.outcome == ChildExit(3) ==>
         forall j :: 0 <= j < NSIG ==>
           (r.table[j] == if Rewritten(t0, os, j) then ResetAction else t0[j]) &&
           (Resettable(r.table[j]) ==> !os.queryOk[j] || os.setResult[j] == SetFailed(EINVAL)))
  {
    var r := RunThreadSpec(m0, t0, s0, os);
    var blocked := m0 + Fill;
    if os.emptySetOk {
      var loop := ResetFrom(t0, blocked, os, 0);
      assert r.table == loop.table;
      ResetFromTable(t0, blocked, os, 0);
      if !loop.end.Died? {
        ResetFromEnd(t0, blocked, os, 0);
        forall j | 0 <= j < NSIG
          ensures Resettable(r.table[j]) ==> !os.queryOk[j] || os.setResult[j] == SetFailed(EINVAL)
        {
          assert !Fatal(t0, os, j);
        }
      }
    }
  }

  /** The child's loop queries 0, 1, ..., NSIG-1 once each, in increasing
      order, when it finishes; when it ends the child it stops at the first
      Fatal signal, whose failed set is the last call, and examines no later one. */
  lemma ChildVisitsInOrder(m0: SigSet, t0: seq<Action>, s0: WaitStatus, os: Os)
    requires os.Valid() && |t0| == NSIG && os.vfork == 0 && os.emptySetOk
    ensures var r := RunThreadSpec(m0, t0, s0, os);
      (r.outcome != ChildExit(2) ==> Enumerates(Queried(r.events), 0, NSIG)) &&
      (r.outcome == ChildExit(2) ==>
         exists k :: 0 <= k < NSIG && Fatal(t0, os, k) && (forall j :: 0 <= j < k ==> !Fatal(t0, os, j)) &&
           Enumerates(Queried(r.events), 0, k + 1) && r.events[|r.events| - 1] == Event(SetDefault(k), m0 + Fill))
  {
    var r := RunThreadSpec(m0, t0, s0, os);
    var c := ChildRun(m0, t0, s0, os);
    var start := [Event(BlockAll, m0), Event(VFork, m0 + Fill)];
    assert r.events == start + c.events;
    QueriedNone(start);
    QueriedAppend(start, c.events);
    assert Queried(r.events) == Queried(c.events);
    ChildRunQueries(m0, t0, s0, os);
    assert r.events[|r.events| - 1] == c.events[|c.events| - 1];
    assert r.outcome == c.outcome;
  }

  lemma ChildRunQueries(m0: SigSet, t0: seq<Action>, s0: WaitStatus, os: Os)
    requires os.Valid() && |t0| == NSIG && os.emptySetOk
    ensures var c := ChildRun(m0, t0, s0, os);
      |c.events| > 0 &&
      (c.outcome != ChildExit(2) ==> Enumerates(Queried(c.events), 0, NSIG)) &&
      (c.outcome == ChildExit(2) ==>
         exists k :: 0 <= k < NSIG && Fatal(t0, os, k) && (forall j :: 0 <= j < k ==> !Fatal(t0, os, j)) &&
           Enumerates(Queried(c.events), 0, k + 1) && c.events[|c.events| - 1] == Event(SetDefault(k), m0 + Fill))
  {
    var blocked := m0 + Fill;
    var c := ChildRun(m0, t0, s0, os);
    var loop := ResetFrom(t0, blocked, os, 0);
    var e1 := [Event(EmptySet, blocked)];
    ResetFromQueries(t0, blocked, os, 0);
    QueriedNone(e1);
    QueriedAppend(e1, loop.events);
    if loop.end.Died? {
      var k := loop.end.sig;
      assert c.events == e1 + loop.events;
      ResetFromDiesOnSet(t0, blocked, os, 0);
      ResetFromEnd(t0, blocked, os, 0);
      assert c.events[|c.events| - 1] == loop.events[|loop.events| - 1];
      assert Fatal(t0, os, k) && (forall j :: 0 <= j < k ==> !Fatal(t0, os, j));
    } else {
      var tail := [Event(SetMask(m0), blocked), Event(Exec, m0)];
      assert c.events == (e1 + loop.events) + tail;
      QueriedNone(tail);
      QueriedAppend(e1 + loop.events, tail);
    }
  }

  /** The parent waits for exactly the pid vfork returned, once, and no
      other path waits at all. */
  lemma ParentReapsOnce(m0: SigSet, t0: seq<Action>, s0: WaitStatus, os: Os)
    requires os.Valid() && |t0| == NSIG
    ensures var r := RunThreadSpec(m0, t0, s0, os);
      Waited(r.events) == if os.vfork != 0 && os.vfork != -1 then [os.vfork] else []
  {
    var r := RunThreadSpec(m0, t0, s0, os);
    if os.vfork == 0 {
      ChildExits(m0, t0, s0, os);
      WaitedNone(r.events);
    } else {
      var start := [Event(BlockAll, m0), Event(VFork, m0 + Fill)];
      var p := ParentRun(m0, t0, s0, os);
      assert r.events == start + p.events;
      WaitedNone(start);
      WaitedAppend(start, p.events);
      ParentRunWaits(m0, t0, s0, os);
    }
  }

  lemma ParentRunWaits(m0: SigSet, t0: seq<Action>, s0: WaitStatus, os: Os)
    requires os.vfork != 0
    ensures Waited(ParentRun(m0, t0, s0, os).events) == if os.vfork != -1 then [os.vfork] else []
  {
    var p := ParentRun(m0, t0, s0, os);
    if os.vfork == -1 {
      WaitedNone(p.events);
    } else {
      var w := [Event(SetMask(m0), m0 + Fill), Event(WaitPid(os.vfork), m0)];
      var tail := if os.waited == -1 then [Event(Perror, m0)] else ReportOf(os.status, m0);
      assert p.events == w + tail;
      WaitedNone(tail);
      WaitedAppend(w, tail);
      assert Waited(w) == [os.vfork] by {
        assert w[1..][1..] == [];
      }
    }
  }

  lemma {:induction false} WaitedNone(events: seq<Event>)
    requires forall e :: e in events ==> !e.call.WaitPid?
    ensures Waited(events) == []
  {
    if events != [] {
      assert forall e :: e in events[1..] ==> e in events;
      WaitedNone(events[1..]);
    }
  }
}
