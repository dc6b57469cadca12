/** Signal numbers, masks and dispositions as run_thread in main.c sees them,
    and the results of the libc and kernel calls it makes. Each call is reduced
    to the outcomes the code can observe; which outcome occurs is an input
    (the `Os` value), never something the model decides. */
module Signals {

  /** Number of signal numbers the child's reset loop walks, 0 .. NSIG-1
      (NSIG of the GNU C Library on Linux: 64 signals plus the unused 0). */
  const NSIG: nat := 65

  /** Status the parent passes to exit() on its two fatal paths. */
  const EXIT_FAILURE: int := 1

  type Signal = int

  /** A thread's signal mask: the set of blocked signal numbers. */
  type SigSet = set<Signal>

  /** What sigfillset gives: every valid signal number. */
  const Fill: SigSet := set s | 1 <= s < NSIG

  /** The handler slot of a disposition: SIG_DFL, SIG_IGN or a custom function. */
  datatype Handler = Default | Ignore | Custom(id: nat)

  /** One entry of a process's disposition table (a `struct sigaction`). */
  datatype Action = Action(handler: Handler, mask: SigSet, flags: int)

  /** The disposition the child installs over a custom handler: SIG_DFL,
      an empty handler mask and no flags. */
  const ResetAction: Action := Action(Default, {}, 0)

  /** The errno values the child distinguishes after a failed sigaction. */
  datatype Errno = EINVAL | OtherErrno(code: nat)

  /** Result of setting a disposition: 0, or -1 with errno. */
  datatype SetResult = SetOk | SetFailed(errno: Errno)

  /** A wait status already decoded by WIFEXITED/WEXITSTATUS and
      WIFSIGNALED/WTERMSIG; `Unclassified` is a status neither macro accepts. */
  datatype WaitStatus = Exited(code: int) | Signaled(sig: Signal) | Unclassified

  /** What the parent prints about its child. */
  datatype Report = ExitedWith(code: int) | KilledBy(sig: Signal)

  /** The outcome of every OS call run_thread makes, fixed in advance.
      - emptySetOk: sigemptyset returned 0
      - queryOk[i]: sigaction(i, NULL, &oldsa) returned 0
      - setResult[i]: what sigaction(i, &newsa, NULL) returns, if it is called
      - vfork: the value vfork returns in the continuation being run
      - execOk: execve replaced the image (so it never returned)
      - waited, status: what waitpid returns and the status it stores */
  datatype Os = Os(
    emptySetOk: bool,
    queryOk: seq<bool>,
    setResult: seq<SetResult>,
    vfork: int,
    execOk: bool,
    waited: int,
    status: WaitStatus)
  {
    /** One query and one set outcome per signal number. */
    predicate Valid() {
      |queryOk| == NSIG && |setResult| == NSIG
    }
  }

  /** The calls run_thread makes, in the order it makes them. */
  datatype Call =
    | BlockAll               // pthread_sigmask(SIG_BLOCK, filled set, &old_signal_mask)
    | VFork
    | EmptySet               // sigemptyset(&empty_mask)
    | Query(sig: Signal)     // sigaction(sig, NULL, &oldsa)
    | SetDefault(sig: Signal) // sigaction(sig, &newsa, NULL)
    | SetMask(to: SigSet)    // pthread_sigmask(SIG_SETMASK, &old_signal_mask, NULL)
    | Exec
    | Perror
    | WaitPid(pid: int)
    | Print(report: Report)

  /** A call together with the signal mask in effect when it was made. */
  datatype Event = Event(call: Call, mask: SigSet)

  /** `q` is lo, lo+1, ..., hi-1: each of those signal numbers once, in increasing order. */
  predicate Enumerates(q: seq<Signal>, lo: int, hi: int)
  {
    |q| == hi - lo && forall k :: 0 <= k < |q| ==> q[k] == lo + k
  }

  /** The signal numbers queried in `events`, in order. */
  function Queried(events: seq<Event>): seq<Signal>
  {
    if events == [] then []
    else (if events[0].call.Query? then [events[0].call.sig] else []) + Queried(events[1..])
  }

  lemma {:induction false} QueriedAppend(a: seq<Event>, b: seq<Event>)
    ensures Queried(a + b) == Queried(a) + Queried(b)
  {
    if a == [] {
      assert a + b == b;
    } else {
      var head := if a[0].call.Query? then [a[0].call.sig] else [];
      assert (a + b)[0] == a[0];
      assert (a + b)[1..] == a[1..] + b;
      assert Queried(a + b) == head + Queried(a[1..] + b);
      QueriedAppend(a[1..], b);
      assert Queried(a) == head + Queried(a[1..]);
    }
  }

  lemma {:induction false} QueriedNone(events: seq<Event>)
    requires forall e :: e in events ==> !e.call.Query?
    ensures Queried(events) == []
  {
    if events != [] {
      assert forall e :: e in events[1..] ==> e in events;
      QueriedNone(events[1..]);
    }
  }

  /** Regrouping of a call log, stated once so that the methods that extend
      the log can cite it instead of unfolding sequence concatenation. */
  lemma AppendAssoc(a: seq<Event>, b: seq<Event>, c: seq<Event>)
    ensures (a + b) + c == a + (b + c)
  {
  }
}
