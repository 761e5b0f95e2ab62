/**
 * Values of the stack monitor: its build-time configuration, one slot of the
 * exit history (`struct stkmon_save_s`), a snapshot of a task control block,
 * and the rows the monitor prints. Also the specification of one drain of the
 * history: which rows it prints and what the slots hold afterwards.
 */
module StackRecords {
  import opened Wrappers

  /** The build-time configuration the monitor is compiled with. */
  datatype Config = Config(
    maxTasks: nat,        // CONFIG_MAX_TASKS
    taskNameSize: nat,    // CONFIG_TASK_NAME_SIZE; 0 means names are not kept
    heapInfo: bool,       // CONFIG_DEBUG_MM_HEAPINFO
    idleStackSize: nat)   // CONFIG_IDLETHREAD_STACKSIZE
  {
    /** A history array of capacity 0 cannot be declared in C. */
    predicate Valid() { maxTasks > 0 }

    /** Number of history slots. */
    function Capacity(): nat { maxTasks * 2 }
  }

  /** One history slot. A zero timestamp marks the slot as empty or already reported. */
  datatype Record = Record(
    timestamp: nat,
    pid: int,
    stackSize: nat,
    peakStack: nat,
    peakHeap: Option<int>,        // present exactly when heap information is built in
    name: Option<seq<char>>)      // present exactly when task names are built in

  datatype Status = Inactive | Active

  /** One printed report line. */
  datatype Row = Row(
    status: Status,
    pid: int,
    size: nat,
    peakStack: nat,
    peakHeap: Option<int>,
    time: nat,
    name: Option<seq<char>>)

  /** The fields of a task control block the monitor reads or writes. */
  datatype TaskView = TaskView(pid: int, adjStackSize: nat, peakAllocSize: int, name: seq<char>)

  /** The optional fields of a record are laid out as the configuration says. */
  predicate Fits(cfg: Config, rec: Record) {
    && (rec.peakHeap.Some? <==> cfg.heapInfo)
    && (if cfg.taskNameSize > 0
        then rec.name.Some? && |rec.name.value| == cfg.taskNameSize + 1
        else rec.name.None?)
  }

  /** A task control block holds a name of CONFIG_TASK_NAME_SIZE + 1 characters when names are built in. */
  predicate TaskFits(cfg: Config, v: TaskView) {
    cfg.taskNameSize > 0 ==> |v.name| == cfg.taskNameSize + 1
  }

  /** A zero-initialised slot, as the history array is at start-up. */
  function EmptyRecord(cfg: Config): (rec: Record)
    ensures Fits(cfg, rec) && !IsPending(rec)
  {
    Record(0, 0, 0, 0,
           if cfg.heapInfo then Some(0) else None,
           if cfg.taskNameSize > 0 then Some(seq(cfg.taskNameSize + 1, _ => '\0')) else None)
  }

  /** The record written for an exiting task, given the clock value and the measured stack peak. */
  function Capture(cfg: Config, v: TaskView, now: nat, peak: nat): (rec: Record)
    requires TaskFits(cfg, v)
    ensures Fits(cfg, rec)
  {
    Record(now, v.pid, v.adjStackSize, peak,
           if cfg.heapInfo then Some(v.peakAllocSize) else None,
           if cfg.taskNameSize > 0 then Some(v.name) else None)
  }

  /** A slot that still waits to be reported. */
  predicate IsPending(rec: Record) { rec.timestamp != 0 }

  /** The INACTIVE row printed for a pending slot. */
  function InactiveRow(rec: Record): Row {
    Row(Inactive, rec.pid, rec.stackSize, rec.peakStack, rec.peakHeap, rec.timestamp, rec.name)
  }

  /** INACTIVE rows for the given records, one each, in the given order. */
  function Reports(recs: seq<Record>): seq<Row> {
    seq(|recs|, i requires 0 <= i < |recs| => InactiveRow(recs[i]))
  }

  /** The rows one drain prints for the slots `s`: pending slots only, in slot order. */
  function Pending(s: seq<Record>): seq<Row> {
    if s == [] then []
    else Pending(s[..|s| - 1]) + (if IsPending(s[|s| - 1]) then [InactiveRow(s[|s| - 1])] else [])
  }

  /** The indices of the pending slots, in the order a drain visits them. */
  function PendingSlots(s: seq<Record>): seq<int> {
    if s == [] then []
    else PendingSlots(s[..|s| - 1]) + (if IsPending(s[|s| - 1]) then [|s| - 1] else [])
  }

  /** The slots after a drain: every timestamp reset to 0, every other field kept. */
  function Cleared(s: seq<Record>): seq<Record> {
    seq(|s|, i requires 0 <= i < |s| => s[i].(timestamp := 0))
  }

  /** The IDLE task's stack size is not self-reported: the callback substitutes the configured one. */
  function IdleAdjusted(cfg: Config, v: TaskView): TaskView {
    if v.pid == 0 then v.(adjStackSize := cfg.idleStackSize) else v
  }

  /** The ACTIVE row printed for a live task, from its fields at print time. */
  function ActiveRow(cfg: Config, v: TaskView, peak: nat, now: nat): Row {
    Row(Active, v.pid, v.adjStackSize, peak,
        if cfg.heapInfo then Some(v.peakAllocSize) else None,
        now,
        if cfg.taskNameSize > 0 then Some(v.name) else None)
  }

  /** The ACTIVE rows of one scheduler walk over `views`, with the stack peak and clock value read per task. */
  function ActiveReport(cfg: Config, views: seq<TaskView>, peaks: seq<nat>, clocks: seq<nat>): seq<Row>
    requires |peaks| == |views| && |clocks| == |views|
  {
    seq(|views|, i requires 0 <= i < |views| => ActiveRow(cfg, IdleAdjusted(cfg, views[i]), peaks[i], clocks[i]))
  }

  /** No INACTIVE row follows an ACTIVE one. */
  predicate InactiveFirst(rows: seq<Row>) {
    forall i, j :: 0 <= i < j < |rows| && rows[i].status == Active ==> rows[j].status == Active
  }

  // ---------------------------------------------------------------------------
  // Properties of one drain
  // ---------------------------------------------------------------------------

  /** A drain prints at most one row per slot, each of them INACTIVE and from a slot with a non-zero timestamp. */
  lemma {:induction false} PendingRows(s: seq<Record>)
    ensures |Pending(s)| <= |s|
    ensures forall m :: 0 <= m < |Pending(s)| ==> Pending(s)[m].status == Inactive && Pending(s)[m].time != 0
    decreases |s|
  {
    if s != [] {
      PendingRows(s[..|s| - 1]);
    }
  }

  /** Drains compose over consecutive parts of the slot array. */
  lemma {:induction false} PendingConcat(s: seq<Record>, t: seq<Record>)
    ensures Pending(s + t) == Pending(s) + Pending(t)
    decreases |t|
  {
    if t == [] {
      assert s + t == s;
    } else {
      var t' := t[..|t| - 1];
      assert (s + t)[..|s + t| - 1] == s + t';
      PendingConcat(s, t');
    }
  }

  /** A buffer with nothing pending prints nothing. */
  lemma {:induction false} PendingNone(s: seq<Record>)
    requires forall i :: 0 <= i < |s| ==> !IsPending(s[i])
    ensures Pending(s) == []
    decreases |s|
  {
    if s != [] {
      PendingNone(s[..|s| - 1]);
    }
  }

  /** When every slot is pending, a drain prints each of them once, in slot order. */
  lemma {:induction false} PendingAll(s: seq<Record>)
    requires forall i :: 0 <= i < |s| ==> IsPending(s[i])
    ensures Pending(s) == Reports(s)
    decreases |s|
  {
    if s != [] {
      var s' := s[..|s| - 1];
      PendingAll(s');
      assert Reports(s) == Reports(s') + [InactiveRow(s[|s| - 1])];
    }
  }

  /**
   * A drain prints exactly one row per pending slot and nothing for an empty
   * one, in ascending slot order: the indices it reports are strictly
   * increasing, are exactly the pending slots, and the m-th row is that of the
   * m-th reported slot.
   */
  lemma {:induction false} PendingExactlyOnce(s: seq<Record>)
    ensures var ix := PendingSlots(s);
      && (forall m :: 0 <= m < |ix| ==> 0 <= ix[m] < |s|)
      && (forall m, n :: 0 <= m < n < |ix| ==> ix[m] < ix[n])
      && (forall j :: 0 <= j < |s| ==> (IsPending(s[j]) <==> j in ix))
      && |Pending(s)| == |ix|
      && (forall m :: 0 <= m < |ix| ==> Pending(s)[m] == InactiveRow(s[ix[m]]))
    decreases |s|
  {
    if s != [] {
      var s' := s[..|s| - 1];
      PendingExactlyOnce(s');
      var ix', ix := PendingSlots(s'), PendingSlots(s);
      forall j | 0 <= j < |s| ensures IsPending(s[j]) <==> j in ix {
        if j < |s| - 1 {
          assert s[j] == s'[j];
          assert j in ix <==> j in ix';
        }
      }
    }
  }

  /** Slots made of two runs of pending records print both runs, in slot order. */
  lemma PendingOfRuns(s: seq<Record>, q: int, front: seq<Record>, back: seq<Record>)
    requires 0 <= q <= |s| && s[..q] == front && s[q..] == back
    requires forall i :: 0 <= i < |front| ==> IsPending(front[i])
    requires forall i :: 0 <= i < |back| ==> IsPending(back[i])
    ensures Pending(s) == Reports(front) + Reports(back)
    ensures |Pending(s)| == |s|
  {
    PendingSplit(s, q);
    PendingAll(front);
    PendingAll(back);
  }

  /** A drain of the slots is the drain of a prefix followed by that of the rest. */
  lemma PendingSplit(s: seq<Record>, b: int)
    requires 0 <= b <= |s|
    ensures Pending(s) == Pending(s[..b]) + Pending(s[b..])
  {
    assert s == s[..b] + s[b..];
    PendingConcat(s[..b], s[b..]);
  }

  /** A drain of the slots is the drain of three consecutive parts of them. */
  lemma PendingThree(s: seq<Record>, a: int, b: int)
    requires 0 <= a <= b <= |s|
    ensures Pending(s) == Pending(s[0..a]) + Pending(s[a..b]) + Pending(s[b..|s|])
  {
    var head := s[..b];
    PendingSplit(s, b);
    PendingSplit(head, a);
    assert head[..a] == s[0..a] && head[a..] == s[a..b] && s[b..] == s[b..|s|];
  }

  lemma PendingNoneIn(s: seq<Record>, a: int, b: int)
    requires 0 <= a <= b <= |s|
    requires forall i :: a <= i < b ==> !IsPending(s[i])
    ensures Pending(s[a..b]) == []
  {
    PendingNone(s[a..b]);
  }

  lemma PendingAllIn(s: seq<Record>, a: int, b: int)
    requires 0 <= a <= b <= |s|
    requires forall i :: a <= i < b ==> IsPending(s[i])
    ensures Pending(s[a..b]) == Reports(s[a..b])
  {
    PendingAll(s[a..b]);
  }

  /** Slots made of an empty part, a run of pending records and an empty part print the run. */
  lemma PendingOfGap(s: seq<Record>, a: int, b: int)
    requires 0 <= a <= b <= |s|
    requires forall i :: 0 <= i < a ==> !IsPending(s[i])
    requires forall i :: a <= i < b ==> IsPending(s[i])
    requires forall i :: b <= i < |s| ==> !IsPending(s[i])
    ensures Pending(s) == Reports(s[a..b])
  {
    PendingThree(s, a, b);
    PendingNoneIn(s, 0, a);
    PendingAllIn(s, a, b);
    PendingNoneIn(s, b, |s|);
  }

  /** Slots made of a pending run, an empty part and a pending run print both runs. */
  lemma PendingAroundGap(s: seq<Record>, a: int, b: int)
    requires 0 <= a <= b <= |s|
    requires forall i :: 0 <= i < a ==> IsPending(s[i])
    requires forall i :: a <= i < b ==> !IsPending(s[i])
    requires forall i :: b <= i < |s| ==> IsPending(s[i])
    ensures Pending(s) == Reports(s[0..a]) + Reports(s[b..|s|])
  {
    PendingThree(s, a, b);
    PendingAllIn(s, 0, a);
    PendingNoneIn(s, a, b);
    PendingAllIn(s, b, |s|);
    var front, back := Reports(s[0..a]), Reports(s[b..|s|]);
    assert front + [] == front;
  }

  /** After a drain nothing is pending: a second drain prints nothing (idempotent exhaustion). */
  lemma DrainExhausts(s: seq<Record>)
    ensures Pending(Cleared(s)) == []
  {
    PendingNone(Cleared(s));
  }

  /** A drain of an all-empty buffer prints nothing and leaves the slots as they are. */
  lemma DrainEmpty(s: seq<Record>)
    requires forall i :: 0 <= i < |s| ==> s[i].timestamp == 0
    ensures Pending(s) == [] && Cleared(s) == s
  {
    PendingNone(s);
    assert forall i :: 0 <= i < |s| ==> Cleared(s)[i] == s[i];
  }

  /**
   * One reporting cycle prints the INACTIVE rows of the drain before the
   * ACTIVE rows of the scheduler walk; the pid-0 row carries the configured
   * idle stack size and every other row the task's own.
   */
  lemma CycleOrder(cfg: Config, s: seq<Record>, views: seq<TaskView>, peaks: seq<nat>, clocks: seq<nat>)
    requires |peaks| == |views| && |clocks| == |views|
    ensures var rows := Pending(s) + ActiveReport(cfg, views, peaks, clocks);
      && InactiveFirst(rows)
      && |rows| == |Pending(s)| + |views|
      && (forall i :: 0 <= i < |views| ==>
            && rows[|Pending(s)| + i].status == Active
            && rows[|Pending(s)| + i].pid == views[i].pid
            && rows[|Pending(s)| + i].size == (if views[i].pid == 0 then cfg.idleStackSize else views[i].adjStackSize))
  {
    var inactive, active := Pending(s), ActiveReport(cfg, views, peaks, clocks);
    var rows := inactive + active;
    PendingRows(s);
    forall i | 0 <= i < |views|
      ensures rows[|inactive| + i] == active[i] && active[i].status == Active
    {
    }
    forall k | 0 <= k < |inactive| ensures rows[k].status == Inactive {
      assert rows[k] == inactive[k];
    }
  }
}
