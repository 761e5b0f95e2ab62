/**
 * The stack monitor's state and operations as they run: the exit history is
 * an array of slots with a cursor, each operation updates it in place, and
 * each is proved against the value-level specification in StackHistory and
 * StackRecords. The clock, the stack-peak measurement and the thread calls
 * are inputs.
 */
module StackMonitor {
  import opened Wrappers
  import opened StackRecords
  import opened StackHistory
  import opened StackControl

  /**
   * A task control block, as far as the monitor sees it. The monitor only
   * ever writes the stack size, and only for the IDLE task.
   */
  class Tcb {
    const pid: int
    var adjStackSize: nat
    const peakAllocSize: int
    const name: seq<char>

    constructor (pid: int, adjStackSize: nat, peakAllocSize: int, name: seq<char>)
      ensures View() == TaskView(pid, adjStackSize, peakAllocSize, name)
    {
      this.pid := pid;
      this.adjStackSize := adjStackSize;
      this.peakAllocSize := peakAllocSize;
      this.name := name;
    }

    function View(): TaskView
      reads this
    {
      TaskView(pid, adjStackSize, peakAllocSize, name)
    }
  }

  /** The fields of every task of a scheduler walk, in walk order. */
  function Views(tasks: seq<Tcb>): (vs: seq<TaskView>)
    reads tasks
    ensures |vs| == |tasks|
    ensures forall i :: 0 <= i < |tasks| ==> vs[i] == tasks[i].View()
  {
    seq(|tasks|, i reads tasks requires 0 <= i < |tasks| => tasks[i].View())
  }

  /** The walk of the task list visits every task once. */
  predicate Distinct(tasks: seq<Tcb>) {
    forall i, j :: 0 <= i < j < |tasks| ==> tasks[i] != tasks[j]
  }

  /** The character-by-character copy of the first `n` characters of a task name. */
  method CopyName(src: seq<char>, n: nat) returns (dst: seq<char>)
    requires n <= |src|
    ensures |dst| == n
    ensures forall k :: 0 <= k < n ==> dst[k] == src[k]
  {
    dst := [];
    var k := 0;
    while k < n
      invariant 0 <= k <= n
      invariant |dst| == k
      invariant forall m :: 0 <= m < k ==> dst[m] == src[m]
    {
      dst := dst + [src[k]];
      k := k + 1;
    }
  }

  class Monitor {
    const cfg: Config
    /** The exit history `stkmon_arr`, of CONFIG_MAX_TASKS * 2 slots. */
    const arr: array<Record>
    /** The cursor `stkmon_chk_idx`. */
    var cursor: int
    /** The run flag `stkmon_started`. */
    var started: bool

    ghost predicate Valid()
      reads this, arr
    {
      && cfg.Valid()
      && arr.Length == cfg.Capacity()
      && 0 <= cursor <= arr.Length
      && forall i :: 0 <= i < arr.Length ==> Fits(cfg, arr[i])
    }

    /** The history as a value. */
    ghost function State(): History
      reads this, arr
    {
      History(arr[..], cursor)
    }

    /** Start-up: the zero-initialised history, and the monitor not running. */
    constructor (cfg: Config)
      requires cfg.Valid()
      ensures Valid() && this.cfg == cfg && fresh(arr)
      ensures State() == FreshHistory(cfg) && !started
    {
      this.cfg := cfg;
      arr := new Record[cfg.Capacity()](_ => EmptyRecord(cfg));
      cursor := 0;
      started := false;
      new;
      assert arr[..] == FreshHistory(cfg).slots;
    }

    /**
     * `stkmon_logging`: the exiting task's values go into slot `cursor % C`,
     * then the cursor is reduced modulo C and incremented.
     */
    method LogExit(tcb: Tcb, now: nat, peak: nat)
      requires Valid() && TaskFits(cfg, tcb.View())
      modifies arr, this`cursor
      ensures Valid()
      ensures State() == Logged(old(State()), Capture(cfg, tcb.View(), now, peak))
    {
      ghost var h := State();
      NextSlotIsMod(h);
      var j := cursor % arr.Length;
      var name: Option<seq<char>> := None;
      if cfg.taskNameSize > 0 {
        var copied := CopyName(tcb.name, cfg.taskNameSize + 1);
        assert copied == tcb.name;
        name := Some(copied);
      }
      var heap: Option<int> := if cfg.heapInfo then Some(tcb.peakAllocSize) else None;
      arr[j] := Record(now, tcb.pid, tcb.adjStackSize, peak, heap, name);
      cursor := cursor % arr.Length;
      cursor := cursor + 1;
      assert arr[..] == h.slots[j := Capture(cfg, tcb.View(), now, peak)];
    }

    /**
     * `stkmon_inactive_check`: every pending slot is reported once, in slot
     * order, and has its timestamp cleared; the cursor is not touched.
     */
    method InactiveCheck() returns (rows: seq<Row>)
      requires Valid()
      modifies arr
      ensures Valid()
      ensures rows == Pending(old(arr[..]))
      ensures arr[..] == Cleared(old(arr[..]))
    {
      ghost var s := arr[..];
      rows := [];
      var i := 0;
      while i < arr.Length
        invariant 0 <= i <= arr.Length
        invariant rows == Pending(s[..i])
        invariant forall k :: 0 <= k < i ==> arr[k] == s[k].(timestamp := 0)
        invariant forall k :: i <= k < arr.Length ==> arr[k] == s[k]
      {
        assert s[..i + 1][..i] == s[..i];
        if arr[i].timestamp != 0 {
          rows := rows + [InactiveRow(arr[i])];
          arr[i] := arr[i].(timestamp := 0);
        }
        i := i + 1;
      }
      assert s[..i] == s;
      assert arr[..] == Cleared(s);
    }

    /**
     * `stkmon_active_check`: the IDLE task (pid 0) gets the configured idle
     * stack size written into its control block; then the task's ACTIVE row
     * is produced from its fields as they are now.
     */
    method ActiveCheck(tcb: Tcb, peak: nat, now: nat) returns (row: Row)
      modifies tcb
      ensures tcb.View() == IdleAdjusted(cfg, old(tcb.View()))
      ensures row == ActiveRow(cfg, IdleAdjusted(cfg, old(tcb.View())), peak, now)
    {
      if tcb.pid == 0 {
        tcb.adjStackSize := cfg.idleStackSize;
      }
      var heap: Option<int> := if cfg.heapInfo then Some(tcb.peakAllocSize) else None;
      var name: Option<seq<char>> := if cfg.taskNameSize > 0 then Some(tcb.name) else None;
      row := Row(Active, tcb.pid, tcb.adjStackSize, peak, heap, now, name);
    }

    /**
     * One pass of the daemon loop `while (stkmon_started)`: when the monitor
     * is running, the drain and then the walk over the live tasks, with the
     * stack peak and clock value read for each task given in `peaks` and
     * `clocks`. When it has been stopped, the daemon leaves the loop: no row,
     * no change.
     */
    method DaemonCycle(tasks: seq<Tcb>, peaks: seq<nat>, clocks: seq<nat>) returns (rows: seq<Row>)
      requires Valid() && Distinct(tasks)
      requires |peaks| == |tasks| && |clocks| == |tasks|
      modifies arr, tasks
      ensures Valid()
      ensures !started ==> rows == [] && arr[..] == old(arr[..]) && Views(tasks) == old(Views(tasks))
      ensures started ==> rows == Pending(old(arr[..])) + ActiveReport(cfg, old(Views(tasks)), peaks, clocks)
      ensures started ==> arr[..] == Cleared(old(arr[..]))
      ensures started ==> forall i :: 0 <= i < |tasks| ==> tasks[i].View() == IdleAdjusted(cfg, old(tasks[i].View()))
      ensures InactiveFirst(rows)
    {
      if !started {
        rows := [];
        assert InactiveFirst(rows);
        return;
      }
      ghost var s := arr[..];
      ghost var views := Views(tasks);
      var inactive := InactiveCheck();
      ghost var drained := arr[..];
      var active: seq<Row> := [];
      var k := 0;
      while k < |tasks|
        invariant 0 <= k <= |tasks|
        invariant arr[..] == drained
        invariant |active| == k
        invariant forall i :: 0 <= i < k ==> active[i] == ActiveRow(cfg, IdleAdjusted(cfg, views[i]), peaks[i], clocks[i])
        invariant forall i :: 0 <= i < k ==> tasks[i].View() == IdleAdjusted(cfg, views[i])
        invariant forall i :: k <= i < |tasks| ==> tasks[i].View() == views[i]
      {
        var row := ActiveCheck(tasks[k], peaks[k], clocks[k]);
        active := active + [row];
        k := k + 1;
      }
      assert active == ActiveReport(cfg, views, peaks, clocks);
      rows := inactive + active;
      CycleOrder(cfg, s, views, peaks, clocks);
    }

    /** `stackmonitor_stop`: clears the run flag; the daemon sees it on its next pass. */
    method Stop()
      requires Valid()
      modifies this`started
      ensures Valid()
      ensures !started
    {
      if started {
        started := false;
      }
    }

    /**
     * `kdbg_stackmonitor`: "stop" as the first argument stops the monitor;
     * otherwise a monitor that is not running is started, with the outcome of
     * thread creation and detaching given by `createOk` and `detachOk`.
     */
    method Command(args: seq<string>, createOk: bool, detachOk: bool) returns (ret: int, launch: Launch)
      requires Valid()
      modifies this`started
      ensures Valid()
      ensures Outcome(started, ret, launch) == Control(old(started), args, createOk, detachOk)
    {
      if |args| > 1 && args[1] == "stop" {
        Stop();
        return OK, NoThread;
      }
      launch := NoThread;
      if !started {
        started := true;
        if !createOk {
          started := false;
          return ERROR, NoThread;
        }
        if !detachOk {
          launch := CancelRequested;
        } else {
          launch := Detached;
        }
      }
      return OK, launch;
    }
  }
}
