/** The child's disposition-reset loop of run_thread (main.c:140-160) as a
    function of the table it starts from, and what that loop guarantees. */
module Reset {
  import opened Signals

  /** How the loop ended: it ran past NSIG-1, or the child called _exit(2)
      after failing to reset `sig`. */
  datatype LoopEnd = Finished | Died(sig: Signal)

  /** The disposition table after the loop, the calls it made and how it ended. */
  datatype LoopRun = LoopRun(table: seq<Action>, events: seq<Event>, end: LoopEnd)

  /** A disposition the loop tries to reset: neither SIG_IGN nor SIG_DFL. */
  predicate Resettable(a: Action) {
    a.handler != Ignore && a.handler != Default
  }

  /** Signal j is rewritten to ResetAction when the loop reaches it:
      its query succeeds, it holds a custom handler and the set succeeds. */
  predicate Rewritten(table: seq<Action>, os: Os, j: Signal)
    requires os.Valid() && |table| == NSIG && 0 <= j < NSIG
  {
    os.queryOk[j] && Resettable(table[j]) && os.setResult[j] == SetOk
  }

  /** Signal j ends the child when the loop reaches it: its query succeeds,
      it holds a custom handler and the set fails with an errno other than EINVAL. */
  predicate Fatal(table: seq<Action>, os: Os, j: Signal)
    requires os.Valid() && |table| == NSIG && 0 <= j < NSIG
  {
    os.queryOk[j] && Resettable(table[j]) && os.setResult[j].SetFailed? && os.setResult[j].errno != EINVAL
  }

  /** The table after iteration i, when that iteration does not end the child. */
  function Next(table: seq<Action>, os: Os, i: Signal): seq<Action>
    requires os.Valid() && |table| == NSIG && 0 <= i < NSIG
  {
    if Rewritten(table, os, i) then table[i := ResetAction] else table
  }

  /** The calls iteration i makes: the query, then the set if the query
      showed a custom handler. */
  function Calls(table: seq<Action>, mask: SigSet, os: Os, i: Signal): seq<Event>
    requires os.Valid() && |table| == NSIG && 0 <= i < NSIG
  {
    if os.queryOk[i] && Resettable(table[i]) then [Event(Query(i), mask), Event(SetDefault(i), mask)]
    else [Event(Query(i), mask)]
  }

  /** Iterations i, i+1, ..., NSIG-1 of the loop, run on `table` while `mask`
      is the thread's mask. A failed query skips the signal; a failed set is
      skipped when errno is EINVAL and otherwise ends the child. */
  function ResetFrom(table: seq<Action>, mask: SigSet, os: Os, i: nat): (r: LoopRun)
    requires os.Valid() && |table| == NSIG && i <= NSIG
    ensures |r.table| == NSIG
    ensures r.end.Died? ==> i <= r.end.sig < NSIG
    decreases NSIG - i
  {
    if i == NSIG then LoopRun(table, [], Finished)
    else
      var q := Event(Query(i), mask);
      if !os.queryOk[i] || !Resettable(table[i]) then
        var rest := ResetFrom(table, mask, os, i + 1);
        rest.(events := [q] + rest.events)
      else
        var s := Event(SetDefault(i), mask);
        match os.setResult[i]
        case SetOk =>
          var rest := ResetFrom(table[i := ResetAction], mask, os, i + 1);
          rest.(events := [q, s] + rest.events)
        case SetFailed(EINVAL) =>
          var rest := ResetFrom(table, mask, os, i + 1);
          rest.(events := [q, s] + rest.events)
        case SetFailed(_) =>
          LoopRun(table, [q, s], Died(i))
  }

  /** Where the loop stops: one past the signal that ended the child, or NSIG. */
  function Stop(r: LoopRun): int {
    if r.end.Died? then r.end.sig + 1 else NSIG
  }

  /** One iteration of the loop, then the rest of it. */
  lemma ResetFromUnfold(table: seq<Action>, mask: SigSet, os: Os, i: nat)
    requires os.Valid() && |table| == NSIG && i < NSIG
    ensures var r := ResetFrom(table, mask, os, i);
      if Fatal(table, os, i) then r == LoopRun(table, Calls(table, mask, os, i), Died(i))
      else
        var rest := ResetFrom(Next(table, os, i), mask, os, i + 1);
        r == rest.(events := Calls(table, mask, os, i) + rest.events)
  {
  }

  /** `full` is `rest` run after the calls `done`: what the loop has left
      to do from some signal on. */
  predicate Resumes(full: LoopRun, done: seq<Event>, rest: LoopRun)
  {
    full.table == rest.table && full.end == rest.end && full.events == done + rest.events
  }

  /** An iteration that does not end the child moves the loop on to the
      next signal, on the table it leaves behind. */
  lemma ResetStep(full: LoopRun, done: seq<Event>, table: seq<Action>, mask: SigSet, os: Os, i: nat)
    requires os.Valid() && |table| == NSIG && i < NSIG && !Fatal(table, os, i)
    requires Resumes(full, done, ResetFrom(table, mask, os, i))
    ensures Resumes(full, done + Calls(table, mask, os, i), ResetFrom(Next(table, os, i), mask, os, i + 1))
  {
    ResetFromUnfold(table, mask, os, i);
  }

  /** An iteration that ends the child ends the loop, on the table as it
      found it. */
  lemma ResetDies(full: LoopRun, done: seq<Event>, table: seq<Action>, mask: SigSet, os: Os, i: nat)
    requires os.Valid() && |table| == NSIG && i < NSIG && Fatal(table, os, i)
    requires Resumes(full, done, ResetFrom(table, mask, os, i))
    ensures full == LoopRun(table, done + Calls(table, mask, os, i), Died(i))
  {
    ResetFromUnfold(table, mask, os, i);
  }

  /** Past the last signal the loop has nothing left to do. */
  lemma ResetFinish(full: LoopRun, done: seq<Event>, table: seq<Action>, mask: SigSet, os: Os)
    requires os.Valid() && |table| == NSIG
    requires Resumes(full, done, ResetFrom(table, mask, os, NSIG))
    ensures full == LoopRun(table, done, Finished)
  {
    assert done + [] == done;
  }

  /** The loop ends the child exactly when some signal from i on is Fatal,
      and then at the first such signal. */
  lemma {:induction false} ResetFromEnd(table: seq<Action>, mask: SigSet, os: Os, i: nat)
    requires os.Valid() && |table| == NSIG && i <= NSIG
    ensures var r := ResetFrom(table, mask, os, i);
      (r.end == Finished <==> forall j :: i <= j < NSIG ==> !Fatal(table, os, j)) &&
      (r.end.Died? ==> Fatal(table, os, r.end.sig) &&
                       forall j :: i <= j < r.end.sig ==> !Fatal(table, os, j))
    decreases NSIG - i
  {
    if i < NSIG {
      ResetFromUnfold(table, mask, os, i);
      if !Fatal(table, os, i) {
        var t := Next(table, os, i);
        ResetFromEnd(t, mask, os, i + 1);
        assert forall j :: i < j < NSIG ==> (Fatal(t, os, j) <==> Fatal(table, os, j));
      }
    }
  }

  /** After the loop, each signal it went past is ResetAction if it was
      Rewritten and unchanged otherwise; signals it did not reach are unchanged. */
  lemma {:induction false} ResetFromTable(table: seq<Action>, mask: SigSet, os: Os, i: nat)
    requires os.Valid() && |table| == NSIG && i <= NSIG
    ensures var r := ResetFrom(table, mask, os, i);
      forall j :: 0 <= j < NSIG ==>
        r.table[j] == if i <= j < Stop(r) && Rewritten(table, os, j) then ResetAction else table[j]
    decreases NSIG - i
  {
    if i < NSIG {
      ResetFromUnfold(table, mask, os, i);
      if !Fatal(table, os, i) {
        var t := Next(table, os, i);
        ResetFromTable(t, mask, os, i + 1);
        assert forall j :: i < j < NSIG ==> (Rewritten(t, os, j) <==> Rewritten(table, os, j));
      }
    }
  }

  /** The loop queries i, i+1, ... in increasing order, each signal once, up
      to where it stops. */
  lemma {:induction false} ResetFromQueries(table: seq<Action>, mask: SigSet, os: Os, i: nat)
    requires os.Valid() && |table| == NSIG && i <= NSIG
    ensures var r := ResetFrom(table, mask, os, i);
      i <= Stop(r) && Enumerates(Queried(r.events), i, Stop(r))
    decreases NSIG - i
  {
    if i < NSIG {
      var head := Calls(table, mask, os, i);
      ResetFromUnfold(table, mask, os, i);
      CallsQueried(table, mask, os, i);
      if !Fatal(table, os, i) {
        var rest := ResetFrom(Next(table, os, i), mask, os, i + 1);
        ResetFromQueries(Next(table, os, i), mask, os, i + 1);
        QueriedAppend(head, rest.events);
      }
    }
  }

  /** Iteration i queries i and no other signal. */
  lemma CallsQueried(table: seq<Action>, mask: SigSet, os: Os, i: Signal)
    requires os.Valid() && |table| == NSIG && 0 <= i < NSIG
    ensures Queried(Calls(table, mask, os, i)) == [i]
  {
    var head := Calls(table, mask, os, i);
    if |head| == 2 {
      assert head == [head[0]] + [head[1]];
      QueriedAppend([head[0]], [head[1]]);
    }
  }

  /** A loop that ends the child ends on the failed set. */
  lemma {:induction false} ResetFromDiesOnSet(table: seq<Action>, mask: SigSet, os: Os, i: nat)
    requires os.Valid() && |table| == NSIG && i <= NSIG
    ensures var r := ResetFrom(table, mask, os, i);
      r.end.Died? ==> |r.events| > 0 && r.events[|r.events| - 1] == Event(SetDefault(r.end.sig), mask)
    decreases NSIG - i
  {
    if i < NSIG {
      ResetFromUnfold(table, mask, os, i);
      if !Fatal(table, os, i) {
        ResetFromDiesOnSet(Next(table, os, i), mask, os, i + 1);
      }
    }
  }

  /** The loop makes only queries and sets, all under `mask`, and sets only
      signals from i on whose query succeeded and showed a custom handler. */
  lemma {:induction false} ResetFromCalls(table: seq<Action>, mask: SigSet, os: Os, i: nat)
    requires os.Valid() && |table| == NSIG && i <= NSIG
    ensures var r := ResetFrom(table, mask, os, i);
      forall e :: e in r.events ==>
        e.mask == mask &&
        (e.call.Query? || e.call.SetDefault?) &&
        (e.call.SetDefault? ==> i <= e.call.sig < NSIG && os.queryOk[e.call.sig] && Resettable(table[e.call.sig]))
    decreases NSIG - i
  {
    if i < NSIG {
      ResetFromUnfold(table, mask, os, i);
      if !Fatal(table, os, i) {
        var t := Next(table, os, i);
        ResetFromCalls(t, mask, os, i + 1);
        assert forall j :: i < j < NSIG ==> t[j] == table[j];
      }
    }
  }
}
