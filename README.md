# Stack monitor (TizenRT `kdbg_stackmonitor`) in Dafny

This project models the stack monitor of TizenRT's kernel debug utilities.
The monitor reports the stack usage of every task, and optionally its peak
heap usage. When a task exits, the exit hook `stkmon_logging` records the
task's final values in a fixed history of C = CONFIG_MAX_TASKS * 2 slots
(`stkmon_arr`). The slot it writes is `stkmon_chk_idx % C`. The daemon thread
runs while the flag `stkmon_started` is set. On each pass it first drains the
history: it prints one INACTIVE row per pending slot (a slot with a non-zero
timestamp) and then zeroes that slot's timestamp. Then it walks the live
tasks and prints one ACTIVE row for each. The IDLE task (pid 0) gets the
configured idle stack size written into its control block first. The
command `kdbg_stackmonitor` starts the daemon, or stops it with the argument
`stop`.

The model has four parts:

- `records.dfy` (module `StackRecords`) holds the values. These are the
  build configuration, a history slot, a task snapshot and a printed row. It
  also holds a drain's specification: `Pending` gives the rows it prints and
  `Cleared` gives the slots it leaves behind.
- `history.dfy` (module `StackHistory`) models the history and its cursor as
  a value, `History`. `Logged` and `LogAll` give the effect of one exit and
  of a run of exits. The lemmas state what the next drain prints after such
  a run.
- `control.dfy` (module `StackControl`) gives the start/stop command. It is
  a function from the run flag, the arguments and the outcomes of the thread
  calls to the new flag, the return code and what happened to the thread.
- `monitor.dfy` (module `StackMonitor`) holds the running system as classes:
  - `Tcb` is a task control block. Its stack-size field is mutable.
  - `Monitor` owns the history array, the cursor and the run flag. Its
    methods update these in place.

  The methods `LogExit`, `InactiveCheck`, `ActiveCheck`, `DaemonCycle` and
  `Command`, and the constructor, are proved against the value-level
  functions above.

The build options become fields of a `Config` datatype:

| build option | field |
|---|---|
| CONFIG_MAX_TASKS | `maxTasks` |
| CONFIG_TASK_NAME_SIZE | `taskNameSize` |
| CONFIG_DEBUG_MM_HEAPINFO | `heapInfo` |
| CONFIG_IDLETHREAD_STACKSIZE | `idleStackSize` |

The optional record fields (peak heap, name) become `Option` values. The
system's return codes are `OK` = 0 and `ERROR` = -1.

Some external calls become inputs:

| external call | input |
|---|---|
| `clock_systimer` | a clock value per call |
| `up_check_tcbstack` | a measured stack peak per call |
| `pthread_create`, `pthread_detach` | two booleans |
| `sched_foreach` | the sequence of live tasks it visits, each once |

## Model

| member | source | states |
|---|---|---|
| StackRecords.EmptyRecord | apps/system/utils/kdbg_stackmonitor.c:88-99 | a zero-initialised slot has the configured layout and is not pending |
| StackRecords.Capture | apps/system/utils/kdbg_stackmonitor.c:202-213 | the record an exit writes has the configured layout: a heap peak exactly when heap information is built in, and a name of CONFIG_TASK_NAME_SIZE + 1 characters exactly when names are built in |
| StackRecords.PendingRows | apps/system/utils/kdbg_stackmonitor.c:128-142 | a drain prints at most C rows, all INACTIVE and all with a non-zero time |
| StackRecords.PendingExactlyOnce | apps/system/utils/kdbg_stackmonitor.c:128-142 | the rows of a drain correspond one-to-one, in increasing slot order, to exactly the pending slots, and each row carries its slot's fields |
| StackRecords.PendingAll | apps/system/utils/kdbg_stackmonitor.c:128-142 | when every slot is pending, a drain prints every slot, in slot order |
| StackRecords.DrainExhausts | apps/system/utils/kdbg_stackmonitor.c:140 | after a drain nothing is pending, so a second drain with no exits in between prints nothing |
| StackRecords.DrainEmpty | apps/system/utils/kdbg_stackmonitor.c:128-129 | a drain of a history with nothing pending prints nothing and changes nothing |
| StackRecords.CycleOrder | apps/system/utils/kdbg_stackmonitor.c:145-175 | in one daemon pass every INACTIVE row comes before every ACTIVE row; there is one ACTIVE row per live task, in walk order, with the task's pid; it carries the configured idle stack size for pid 0 and the task's own stack size for any other pid |
| StackHistory.NextSlotIsMod | apps/system/utils/kdbg_stackmonitor.c:202 | the slot an exit writes is `cursor % C` |
| StackHistory.Logged | apps/system/utils/kdbg_stackmonitor.c:200-216 | one exit overwrites exactly slot `cursor % C` with the new record and no other slot; afterwards the cursor is in 1..C |
| StackHistory.LogAll | apps/system/utils/kdbg_stackmonitor.c:200-216 | a run of exits keeps the slot count and the cursor in 0..C, and in 1..C once at least one exit happened |
| StackHistory.CursorAfterLogging | apps/system/utils/kdbg_stackmonitor.c:214-215 | after k exits the next slot written is `(cursor + k) % C`: reducing the cursor before incrementing it gives strict rotation |
| StackHistory.StrictRotation | apps/system/utils/kdbg_stackmonitor.c:202-215 | the i-th exit of a run lands in slot `(cursor + i) % C` |
| StackHistory.SlotsAfterLogging | apps/system/utils/kdbg_stackmonitor.c:200-216 | after a run of exits, every slot holds the newest exit that was written to it, or its old content if no exit of the run reached it |
| StackHistory.FewExitsAllReported | apps/system/utils/kdbg_stackmonitor.c:128-142 | at most C exits into a history with nothing pending are each reported exactly once by the next drain; the exits that wrapped into the low slots come out first |
| StackHistory.WrapKeepsNewest | apps/system/utils/kdbg_stackmonitor.c:200-216 | after C or more exits the next drain prints exactly C rows, the newest C exits, in slot order; older exits are silently lost |
| StackHistory.WrapExample | apps/system/utils/kdbg_stackmonitor.c:200-216 | with C = 4 and tasks 10..14 exiting in order, the drain prints 14, 11, 12, 13, and a second drain prints nothing |
| StackHistory.FreshHistory | apps/system/utils/kdbg_stackmonitor.c:104-106 | at start-up the history has C slots, none pending, and the cursor is 0 |
| StackControl.Control | apps/system/utils/kdbg_stackmonitor.c:218-263 | the return code and the new run flag for each case: stop clears the flag and returns OK; a start while running is a no-op returning OK; a failed thread creation resets the flag and returns ERROR; a failed detach requests cancellation yet leaves the flag set and returns OK; ERROR is returned in exactly that one failure case |
| StackControl.StartTwice | apps/system/utils/kdbg_stackmonitor.c:258-260 | a second start after a successful one returns OK, keeps the flag set and creates no thread |
| StackControl.StuckAfterFailedDetach | apps/system/utils/kdbg_stackmonitor.c:253-260 | a start whose detach fails returns OK, requests cancellation and leaves the run flag set; every later start then returns OK and launches no daemon, until a stop clears the flag |
| StackControl.StopWhenStopped | apps/system/utils/kdbg_stackmonitor.c:182-195 | stopping a monitor that is not running returns OK, leaves it stopped and creates no thread |
| StackMonitor.CopyName | apps/system/utils/kdbg_stackmonitor.c:210-212 | the name loop copies the first CONFIG_TASK_NAME_SIZE + 1 characters of the task name, in order |
| StackMonitor.Monitor.constructor | apps/system/utils/kdbg_stackmonitor.c:104-106 | the monitor starts with the zero-initialised history, cursor 0 and the run flag clear |
| StackMonitor.Monitor.LogExit | apps/system/utils/kdbg_stackmonitor.c:200-216 | the array and cursor afterwards are exactly `Logged` of the state before, with the record captured from the task, clock and stack peak |
| StackMonitor.Monitor.InactiveCheck | apps/system/utils/kdbg_stackmonitor.c:125-143 | the rows printed are `Pending` of the slots before, the slots afterwards are `Cleared` of them, and the cursor is untouched |
| StackMonitor.Monitor.ActiveCheck | apps/system/utils/kdbg_stackmonitor.c:145-160 | the task's stack size is overwritten with the idle stack size exactly when its pid is 0, and the ACTIVE row reports the task's fields after that |
| StackMonitor.Monitor.DaemonCycle | apps/system/utils/kdbg_stackmonitor.c:162-180 | when the flag is set, one pass prints the drain's rows followed by one ACTIVE row per live task, clears the history and substitutes the idle stack size; when the flag is clear the daemon leaves its loop, printing and changing nothing; either way no INACTIVE row follows an ACTIVE one |
| StackMonitor.Monitor.Stop | apps/system/utils/kdbg_stackmonitor.c:182-195 | the run flag is clear afterwards and the class invariant still holds |
| StackMonitor.Monitor.Command | apps/system/utils/kdbg_stackmonitor.c:218-263 | the flag, return code and thread outcome are those of `StackControl.Control` |

## Left out

- Printing: the banner, the title line, the column formats and the "Running", "Stopped well" and diagnostic messages are not modelled. Rows are returned as values instead of printed. A name is kept as its full CONFIG_TASK_NAME_SIZE + 1 characters, so the `%s` cut at the first NUL is not modelled.
- Threads and timing: `sleep`, the interval and the endless daemon loop are not modelled. `DaemonCycle` models one pass of the loop together with its flag test. The thread's attributes, name and handle are not modelled. The pthread results are the boolean inputs of `Command`.
- Concurrency: exit hooks running at the same time as a drain, torn slot writes and `volatile` are not modelled. Every operation runs to completion on its own. `LogExit` writes a slot in one assignment. The source publishes the timestamp (line 202) before the other fields (lines 203-212). A drain running at the same time can therefore report a new timestamp next to the previous exit's pid, sizes and name. This torn read is not modelled.
- External calls: `clock_systimer`, `up_check_tcbstack` and the scheduler walk are not modelled. Their results are inputs. The walk is assumed to visit each live task once (`Distinct`).
- Integer widths: `stkmon_chk_idx`, `systime_t`, `size_t` and `pid_t` are unbounded. The cursor never leaves 0..C, so an `int` cursor cannot wrap.
- After a failed `pthread_detach` the source cancels the daemon but leaves `stkmon_started` set (lines 253-257). Later starts then report "already started" and launch nothing until `stop` is issued. The model reproduces this (`StackControl.StuckAfterFailedDetach`). It does not claim the cancelled daemon is gone: cancellation is best effort and is not modelled.
- A task that exits when the clock reads 0 gets a timestamp of 0. Its record is then never reported. The model reproduces this and does not claim every exit is reported. `FewExitsAllReported` and `WrapKeepsNewest` require non-zero timestamps.
- The name-copy loop in `stkmon_logging` uses a loop variable `name_idx` that the file never declares. With names enabled, the file as written does not compile. `CopyName` models the evident intent, a copy of CONFIG_TASK_NAME_SIZE + 1 characters.
- StackMonitor.Monitor.ActiveCheck: `peak_alloc_size` and the name are read from the control block as constants. The monitor never writes them.
