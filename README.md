# safe_vfork: the signal-safe vfork protocol of run_thread

`run_thread` in `main.c` spawns a helper program with `vfork` and `execve`.
It takes care that no signal handler the parent installed can run in the
child, which shares the parent's memory until it execs. The protocol is:

1. Block every signal in the calling thread, saving the old mask.
2. Call `vfork`.
3. In the child, walk signals 0 .. NSIG-1. Reset every custom handler to
   `SIG_DFL` with an empty handler mask and no flags. Then restore the
   saved mask and `execve` the helper. The reserved exit codes are:
   - `_exit(1)`: `sigemptyset` failed;
   - `_exit(2)`: a reset failed with an errno other than `EINVAL`;
   - `_exit(3)`: `execve` returned.
4. In the parent, restore the saved mask first. If `vfork` failed, report
   and `exit(EXIT_FAILURE)`. Otherwise wait for exactly that child. A failed
   `waitpid` is fatal. Otherwise print whether the helper exited or was
   killed by a signal.

The model has four modules:

- `Signals` holds signal numbers, masks, dispositions and errno values.
  It also holds `Os`, the outcome of every OS call, fixed in advance and
  supplied as an input. Finally it holds `Event`, one call together with
  the mask in effect when it was made.
- `Reset` models the child's reset loop as the function `ResetFrom`. Its
  lemmas state what the loop guarantees:
  - which signals end the child;
  - what the table becomes;
  - the order in which signals are queried;
  - which calls the loop makes.
- `Spawn` models the two continuations, `ChildRun` and `ParentRun`, and
  the whole run, `RunThreadSpec`. Its lemmas cover:
  - the mask bracketing around `vfork` and `execve`;
  - the child's exit codes;
  - the handler reset;
  - that the parent reaps exactly the child once;
  - the parent's report.
- `SpawnThread.Thread` is a class with three fields:
  - the thread's mask;
  - the disposition table, as an array indexed by signal number;
  - the global `status`.

  Each OS call is a method on that state. `RunThread`, `RunChild`,
  `RunParent`, `ResetDispositions` and `ResetSignal` follow the C code
  statement by statement. Each is proved to produce exactly the state, the
  call log and the outcome that the specification functions above give.

Each run follows one continuation: the one the `vfork` result selects. In
the child continuation the object stands for the child's copy of the
signal state.

A failed `sigaction` query skips that signal (main.c:142-144; the comment
at main.c:143 says such a signal does not exist). Only a failed
`sigemptyset` leads to `_exit(1)`, and `Spawn.ChildExits` proves it.

## Model

| member | source | states |
|---|---|---|
| Reset.ResetFrom | main.c:140-160 | The loop from signal i on leaves a table of NSIG entries. If it ends the child, it does so at a signal between i and NSIG-1. |
| Reset.ResetFromUnfold | main.c:142-158 | One iteration: a Fatal signal stops the loop after its query and set, on the table as it was. Otherwise the calls of the iteration are followed by the rest of the loop, run on the next table. |
| Reset.ResetFromEnd | main.c:147-158 | The loop finishes exactly when no signal from i on is Fatal: query succeeds, custom handler, set fails with an errno other than EINVAL. If it ends the child, it ends at a Fatal signal with no Fatal signal before it. |
| Reset.ResetFromTable | main.c:142-152 | Each signal the loop passes becomes ResetAction exactly when its query succeeded, it held a custom handler and the set succeeded. All other entries, including signals after the one that ended the child, are unchanged. |
| Reset.ResetFromQueries | main.c:140-142 | The loop queries i, i+1, ... once each, in increasing order, up to where it stops. |
| Reset.CallsQueried | main.c:142-148 | One iteration queries its own signal and no other. |
| Reset.ResetFromDiesOnSet | main.c:147-158 | When the loop ends the child, its last call is the failed set of the signal it died on. |
| Reset.ResetFromCalls | main.c:142-148 | The loop makes only queries and sets, all under the mask given. It sets only signals whose query succeeded and showed a handler other than SIG_IGN and SIG_DFL. |
| Spawn.ChildRun | main.c:125-178 | The child keeps the parent's status. It ends in _exit or in the replaced image. |
| Spawn.ParentRun | main.c:179-215 | Both parent paths restore the saved mask first, then make every call under it, and never set the mask again. A vfork failure gives perror and exit(EXIT_FAILURE). Otherwise the parent waits for the vfork pid. exit(EXIT_FAILURE) happens exactly when that wait fails. A successful wait stores the status, prints its classification and returns. |
| Spawn.RunThreadSpec | main.c:60-216 | Every signal is blocked, and the old mask saved, before vfork. The vfork result picks the child continuation exactly when it is 0. On both parent paths the saved mask is restored as the first call after vfork, and the parent's table is untouched. |
| Spawn.ReportOf | main.c:205-212 | At most one report: "exited" with the status's code exactly for an exited status, "killed" with its signal exactly for a signaled one, and nothing for a status neither macro accepts. |
| Spawn.ParentReportsStatus | main.c:205-212 | Every report follows a successful wait and matches the decoded status: exited with its code, or killed by its signal. A successful wait with a status of either kind is always reported. |
| Spawn.ChildExits | main.c:135-177 | The child ends only with _exit(1), _exit(2), _exit(3) or the new image. Exit 1 happens exactly when sigemptyset fails. Exit 2 happens exactly when some signal is Fatal. The image is replaced exactly when no signal is Fatal and execve succeeds. The child never waits, calls perror or prints. |
| Spawn.ChildMaskAroundExec | main.c:105-177 | When the child reaches execve, every call before the mask restore runs with all signals blocked. The restore of the saved mask is the call just before execve, and execve runs under the saved mask. On the _exit(1) and _exit(2) paths the mask stays fully blocked and neither a mask restore nor execve happens. |
| Spawn.ChildVisitsInOrder | main.c:140-158 | A finished loop queries 0 .. NSIG-1 once each, in order. A loop that ends the child stops at the first Fatal signal k: it queries 0 .. k in order, and its last call is the failed set of k. |
| Spawn.ChildResetsHandlers | main.c:140-160 | SIG_IGN and SIG_DFL entries are never changed. When the child reaches execve, each custom handler has become ResetAction exactly where the query and set succeeded. A custom handler survives only where the query failed or the set failed with EINVAL. |
| Spawn.ParentReapsOnce | main.c:198-204 | The only wait in a run is one for the pid vfork returned, made once and not retried. The child and the vfork-failure path never wait. |
| SpawnThread.Thread.BlockAll | main.c:81-105 | pthread_sigmask(SIG_BLOCK) with a filled set: it returns the old mask, and the new mask is the old one plus every signal. |
| SpawnThread.Thread.SetMask | main.c:162 | pthread_sigmask(SIG_SETMASK) installs the given mask. |
| SpawnThread.Thread.VFork | main.c:123 | vfork returns the given continuation's value. |
| SpawnThread.Thread.EmptySet | main.c:135 | sigemptyset returns 0 exactly on success, with the empty set. |
| SpawnThread.Thread.QueryAction | main.c:142 | A query returns 0 exactly when it succeeds, and then gives the current entry. |
| SpawnThread.Thread.SetAction | main.c:148 | A set returns 0 exactly when it succeeds, and only then changes the entry. On failure it gives the errno. |
| SpawnThread.Thread.ExecVe | main.c:175 | execve replaces the image or returns. |
| SpawnThread.Thread.WaitPid | main.c:198 | waitpid stores the child's status unless it returns -1. |
| SpawnThread.Thread.Perror | main.c:184 | perror after a failed vfork (and after a failed waitpid, main.c:202) is logged under the mask in effect, which on both parent paths is the restored saved mask. |
| SpawnThread.Thread.PrintReport | main.c:207-211 | The report printed for the helper is logged with its value under the mask in effect. |
| SpawnThread.Thread.ResetSignal | main.c:142-158 | One iteration on the array ends the child exactly for a Fatal signal. Otherwise it leaves the table Reset.Next gives. Its calls are Reset.Calls. |
| SpawnThread.Thread.ResetDispositions | main.c:140-160 | The loop over the array leaves the table, the call log and the end that Reset.ResetFrom gives from signal 0. |
| SpawnThread.Thread.RunChild | main.c:125-178 | The child code leaves the mask, table, status, call log and outcome that Spawn.ChildRun gives. |
| SpawnThread.Thread.RunParent | main.c:179-215 | The parent code leaves the mask, status, call log and outcome that Spawn.ParentRun gives. |
| SpawnThread.Thread.RunThread | main.c:60-216 | run_thread leaves the mask, table, status, call log and outcome that Spawn.RunThreadSpec gives. |

## Left out

- main (main.c:218-251) is not part of this model. It creates the thread, joins it and exits with EXIT_SUCCESS (main.c:250); it exits with EXIT_FAILURE when pthread_create or pthread_join fails (main.c:232-236, 245-249). It holds no signal logic.
- Real OS behaviour: each call's result comes from the `Os` input, including which signals exist, errno values, vfork's pid and the status waitpid stores.
- How the kernel treats masks: it silently keeps SIGKILL and SIGSTOP unblocked, and glibc keeps its internal signals out of sigfillset. The model's filled set is simply 1 .. NSIG-1.
- NSIG is fixed at glibc's Linux value, 65.
- The wait-status bit layout: WIFEXITED, WEXITSTATUS, WIFSIGNALED and WTERMSIG are taken as already decoded into `WaitStatus`.
- `sa_restorer` is not modelled. The reset action is SIG_DFL with an empty mask and flags 0.
- The advice about set*id calls and SIGCANCEL/SIGSETXID (main.c:83-103, 107-122) describes no code.
- Diagnostic text is not modelled: the perror and printf text, the file name, argv and envp. The model records only which call is made and, for the report, the value printed.
- The parent and child continuations are modelled as separate runs. The model does not capture the address space they share under vfork, the suspension of the parent until the child execs or exits, or concurrency with other threads.
- errno is modelled as the value a failed set returns, not as a thread-local variable.
