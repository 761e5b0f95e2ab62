/**
 * The start/stop command of the stack monitor (`kdbg_stackmonitor` and
 * `stackmonitor_stop`) as a transition of the run flag. Thread creation and
 * detaching are external; their outcomes are the inputs `createOk` and
 * `detachOk`.
 */
module StackControl {

  /** Return codes of the command (the system's OK and ERROR). */
  const OK: int := 0
  const ERROR: int := -1

  /** What happened to the daemon thread. */
  datatype Launch =
    | NoThread          // no thread was created
    | Detached          // created and detached
    | CancelRequested   // created, detaching failed, cancellation was requested

  /** The run flag afterwards, the return code, and the thread's fate. */
  datatype Outcome = Outcome(started: bool, ret: int, launch: Launch)

  /** The command asks to stop: `args[0]` is the command name, and the argument after it is "stop". */
  predicate IsStop(args: seq<string>) {
    |args| > 1 && args[1] == "stop"
  }

  /**
   * The command, given the run flag before it and the outcomes of thread
   * creation and detaching.
   */
  function Control(started: bool, args: seq<string>, createOk: bool, detachOk: bool): (o: Outcome)
    // the only failure: a start request while stopped whose thread could not be created
    ensures o.ret == ERROR <==> !IsStop(args) && !started && !createOk
    ensures o.ret == OK <==> !(!IsStop(args) && !started && !createOk)
    // stopping always leaves the monitor stopped
    ensures IsStop(args) ==> !o.started && o.launch == NoThread
    // a start while running changes nothing
    ensures !IsStop(args) && started ==> o == Outcome(true, OK, NoThread)
    // the flag is set afterwards exactly when a start found it set or created the thread
    ensures o.started <==> !IsStop(args) && (started || createOk)
    // a thread is created exactly by a start while stopped whose creation succeeds
    ensures o.launch != NoThread <==> !IsStop(args) && !started && createOk
    // a failed detach is followed by a cancellation request, yet the flag stays set and OK is returned
    ensures o.launch == CancelRequested <==> !IsStop(args) && !started && createOk && !detachOk
  {
    if IsStop(args) then Outcome(false, OK, NoThread)
    else if started then Outcome(true, OK, NoThread)
    else if !createOk then Outcome(false, ERROR, NoThread)
    else if !detachOk then Outcome(true, OK, CancelRequested)
    else Outcome(true, OK, Detached)
  }

  /** Starting twice in a row: the second start is a no-op that succeeds, whatever its thread outcomes. */
  lemma StartTwice(args1: seq<string>, args2: seq<string>, c1: bool, d1: bool, c2: bool, d2: bool)
    requires !IsStop(args1) && !IsStop(args2)
    ensures var first := Control(false, args1, c1, d1);
      first.started ==> Control(first.started, args2, c2, d2) == Outcome(true, OK, NoThread)
  {
  }

  /**
   * A start whose detach fails requests cancellation of the daemon but leaves
   * the run flag set, so every later start is taken for "already started" and
   * launches no daemon until an explicit stop clears the flag.
   */
  lemma StuckAfterFailedDetach(args1: seq<string>, args2: seq<string>, c: bool, d: bool)
    requires !IsStop(args1) && !IsStop(args2)
    ensures var first := Control(false, args1, true, false);
      && first == Outcome(true, OK, CancelRequested)
      && Control(first.started, args2, c, d) == Outcome(true, OK, NoThread)
  {
  }

  /** Stopping when not started: a no-op that succeeds and creates no thread. */
  lemma StopWhenStopped(args: seq<string>, c: bool, d: bool)
    requires IsStop(args)
    ensures Control(false, args, c, d) == Outcome(false, OK, NoThread)
  {
  }
}
