/**
 * The exit history as a value: the slot array `stkmon_arr` and the cursor
 * `stkmon_chk_idx`. One exit writes slot `cursor % C`, then the cursor is
 * normalised modulo C and incremented; a drain (StackRecords.Pending and
 * StackRecords.Cleared) reports and clears the pending slots. The lemmas say
 * which record every slot holds after a run of exits, and hence what the next
 * drain prints: every exit once if at most C happened, otherwise exactly the
 * newest C.
 */
module StackHistory {
  import opened Wrappers
  import opened StackRecords

  datatype History = History(slots: seq<Record>, cursor: int)

  /** The cursor starts at 0 and never leaves 0..C. */
  predicate Wellformed(h: History) {
    |h.slots| > 0 && 0 <= h.cursor <= |h.slots|
  }

  /**
   * The next slot an exit writes, `cursor % C`. As the cursor stays in 0..C
   * this is the cursor itself, or slot 0 when the cursor equals C
   * (NextSlotIsMod).
   */
  function NextSlot(h: History): (j: nat)
    requires Wellformed(h)
    ensures j < |h.slots|
  {
    if h.cursor < |h.slots| then h.cursor else 0
  }

  lemma NextSlotIsMod(h: History)
    requires Wellformed(h)
    ensures NextSlot(h) == h.cursor % |h.slots|
  {
    if h.cursor < |h.slots| {
      ModOf(h.cursor, |h.slots|, 0, h.cursor);
    } else {
      ModOf(h.cursor, |h.slots|, 1, 0);
    }
  }

  /**
   * One exit logging `rec`: the slot `cursor % C` is overwritten, no other
   * slot changes, and the cursor becomes `(cursor % C) + 1`, so it stays in 1..C.
   */
  function Logged(h: History, rec: Record): (h': History)
    requires Wellformed(h)
    ensures Wellformed(h') && |h'.slots| == |h.slots|
    ensures 1 <= h'.cursor
    ensures h'.slots[NextSlot(h)] == rec
    ensures forall j :: 0 <= j < |h.slots| && j != NextSlot(h) ==> h'.slots[j] == h.slots[j]
  {
    var j := NextSlot(h);
    History(h.slots[j := rec], j + 1)
  }

  /** A run of exits, logged in the order of `recs`. */
  function LogAll(h: History, recs: seq<Record>): (h': History)
    requires Wellformed(h)
    ensures Wellformed(h') && |h'.slots| == |h.slots|
    ensures recs != [] ==> 1 <= h'.cursor
    decreases |recs|
  {
    if recs == [] then h
    else Logged(LogAll(h, recs[..|recs| - 1]), recs[|recs| - 1])
  }

  /**
   * How many writes ago slot `j` of `n` was last due, when the next write goes
   * to slot `q`: 0 for the slot just before `q`, n - 1 for `q` itself.
   */
  function Age(q: int, j: int, n: int): (a: int)
    requires 0 <= q < n && 0 <= j < n
    ensures 0 <= a < n
  {
    if j < q then q - 1 - j else q - 1 - j + n
  }

  /**
   * What slot `j` holds after the run `recs`, when the next write goes to slot
   * `q`: the exit written `Age` writes ago if the run is that long, otherwise
   * what the slot held before the run.
   */
  function Survivor(before: Record, recs: seq<Record>, q: int, j: int, n: int): Record
    requires 0 <= q < n && 0 <= j < n
  {
    var a := Age(q, j, n);
    if a < |recs| then recs[|recs| - 1 - a] else before
  }

  /** One more write, to slot q, moves the next slot on and ages every other slot by one. */
  lemma SurvivorStep(before: Record, pre: seq<Record>, r: Record, q: int, j: int, n: int)
    requires 0 <= q < n && 0 <= j < n
    ensures Survivor(before, pre + [r], if q + 1 < n then q + 1 else 0, j, n)
         == if j == q then r else Survivor(before, pre, q, j, n)
  {
    var q' := if q + 1 < n then q + 1 else 0;
    var recs := pre + [r];
    if j == q {
      assert Age(q', j, n) == 0;
    } else {
      assert Age(q', j, n) == Age(q, j, n) + 1;
      if Age(q, j, n) < |pre| {
        assert recs[|recs| - 1 - Age(q', j, n)] == pre[|pre| - 1 - Age(q, j, n)];
      }
    }
  }

  /** Normalising the cursor modulo n before incrementing it does not change the next slot. */
  lemma ModSucc(x: int, n: int)
    requires 0 <= x && 0 < n
    ensures (x % n + 1) % n == (x + 1) % n
  {
    var q, r := x / n, x % n;
    assert x == q * n + r;
    if r + 1 < n {
      ModOf(x + 1, n, q, r + 1);
      ModOf(r + 1, n, 0, r + 1);
    } else {
      assert x + 1 == (q + 1) * n;
      ModOf(x + 1, n, q + 1, 0);
      ModOf(r + 1, n, 1, 0);
    }
  }

  lemma {:induction false} MulAtLeast(a: int, n: int)
    requires a >= 1 && n > 0
    ensures a * n >= n
    decreases a
  {
    if a > 1 {
      MulAtLeast(a - 1, n);
      assert a * n == (a - 1) * n + n;
    }
  }

  /** Division with remainder is unique: q * n + r with 0 <= r < n leaves remainder r. */
  lemma ModOf(x: int, n: int, q: int, r: int)
    requires 0 < n && 0 <= r < n && x == q * n + r
    ensures x % n == r
  {
    var q', r' := x / n, x % n;
    assert q' * n + r' == x;
    assert (q - q') * n == r' - r;
    if q > q' {
      MulAtLeast(q - q', n);
    } else if q < q' {
      MulAtLeast(q' - q, n);
    }
  }

  /** After k exits the next write goes to slot (cursor + k) % C: slots are used in strict rotation. */
  lemma {:induction false} CursorAfterLogging(h: History, recs: seq<Record>)
    requires Wellformed(h)
    ensures NextSlot(LogAll(h, recs)) == (h.cursor + |recs|) % |h.slots|
    decreases |recs|
  {
    var n := |h.slots|;
    if recs == [] {
      NextSlotIsMod(h);
    } else {
      var pre := recs[..|recs| - 1];
      CursorAfterLogging(h, pre);
      var q1 := NextSlot(LogAll(h, pre));
      NextSlotIsMod(LogAll(h, recs));
      assert LogAll(h, recs).cursor == q1 + 1;
      ModSucc(h.cursor + |pre|, n);
    }
  }

  /** At most C exits starting at slot p leave the next write at p + k, wrapped once if need be. */
  lemma {:induction false} NextSlotAfterFew(h: History, recs: seq<Record>)
    requires Wellformed(h) && |recs| <= |h.slots|
    ensures var n, p, k := |h.slots|, NextSlot(h), |recs|;
      NextSlot(LogAll(h, recs)) == if p + k < n then p + k else p + k - n
    decreases |recs|
  {
    if recs != [] {
      NextSlotAfterFew(h, recs[..|recs| - 1]);
    }
  }

  /** The i-th exit of a run is written into slot (cursor + i) % C; from a fresh buffer, slot i % C. */
  lemma StrictRotation(h: History, recs: seq<Record>, i: nat)
    requires Wellformed(h) && i < |recs|
    ensures LogAll(h, recs[..i + 1]).slots[(h.cursor + i) % |h.slots|] == recs[i]
  {
    CursorAfterLogging(h, recs[..i]);
    assert recs[..i + 1][..i] == recs[..i];
  }

  /**
   * After a run of exits, slot j holds the exit written `Age` writes ago when
   * that is one of the run, and its old content otherwise.
   */
  lemma {:induction false} SlotsAfterLogging(h: History, recs: seq<Record>)
    requires Wellformed(h)
    ensures var h' := LogAll(h, recs);
      forall j :: 0 <= j < |h.slots| ==> h'.slots[j] == Survivor(h.slots[j], recs, NextSlot(h'), j, |h.slots|)
    decreases |recs|
  {
    if recs != [] {
      var n, k := |h.slots|, |recs| - 1;
      var pre := recs[..k];
      SlotsAfterLogging(h, pre);
      var h1 := LogAll(h, pre);
      var q1 := NextSlot(h1);
      var h' := LogAll(h, recs);
      assert h' == Logged(h1, recs[k]);
      var q' := NextSlot(h');
      assert q' == if q1 + 1 < n then q1 + 1 else 0;
      assert recs == pre + [recs[k]];
      forall j | 0 <= j < n
        ensures h'.slots[j] == Survivor(h.slots[j], recs, q', j, n)
      {
        SurvivorStep(h.slots[j], pre, recs[k], q1, j, n);
      }
    }
  }

  /**
   * Overwrite on wrap: after at least C exits with non-zero timestamps the
   * drain prints exactly C rows, namely the newest C exits. They come out in
   * slot order, starting at the slot q the next exit would overwrite (which
   * holds the oldest survivor, CursorAfterLogging gives q = (cursor + k) % C)
   * and wrapping round; whatever the buffer held before, and the exits older
   * than the newest C, are lost.
   */
  lemma WrapKeepsNewest(h: History, recs: seq<Record>)
    requires Wellformed(h) && |recs| >= |h.slots|
    requires forall i :: 0 <= i < |recs| ==> IsPending(recs[i])
    ensures var n, k, q := |h.slots|, |recs|, NextSlot(LogAll(h, recs));
      && Pending(LogAll(h, recs).slots) == Reports(recs[k - q..]) + Reports(recs[k - n..k - q])
      && |Pending(LogAll(h, recs).slots)| == n
  {
    SlotsAfterLogging(h, recs);
    DrainAfterWrap(h.slots, recs, NextSlot(LogAll(h, recs)), LogAll(h, recs).slots);
  }

  /** The drain of slots that all hold one of the newest C exits, the next write going to slot q. */
  lemma DrainAfterWrap(before: seq<Record>, recs: seq<Record>, q: int, s: seq<Record>)
    requires 0 <= q < |before| <= |recs| && |s| == |before|
    requires forall i :: 0 <= i < |recs| ==> IsPending(recs[i])
    requires forall j :: 0 <= j < |s| ==> s[j] == Survivor(before[j], recs, q, j, |s|)
    ensures Pending(s) == Reports(recs[|recs| - q..]) + Reports(recs[|recs| - |before|..|recs| - q])
    ensures |Pending(s)| == |before|
  {
    var n, k := |s|, |recs|;
    forall j | 0 <= j < q ensures s[j] == recs[k - q + j] {
      assert s[j] == Survivor(before[j], recs, q, j, n);
    }
    forall j | q <= j < n ensures s[j] == recs[k - n + j - q] {
      assert s[j] == Survivor(before[j], recs, q, j, n);
    }
    PendingOfRuns(s, q, recs[k - q..], recs[k - n..k - q]);
  }

  /**
   * At most C exits with non-zero timestamps into a buffer with nothing
   * pending: the drain prints one row per exit. Starting at slot p, the exits
   * fill p, p + 1, ...; when they run past the end (p + k > C) the ones that
   * wrapped into slots 0.. come out first.
   */
  lemma FewExitsAllReported(h: History, recs: seq<Record>)
    requires Wellformed(h) && |recs| <= |h.slots|
    requires forall j :: 0 <= j < |h.slots| ==> !IsPending(h.slots[j])
    requires forall i :: 0 <= i < |recs| ==> IsPending(recs[i])
    ensures var n, k, p := |h.slots|, |recs|, NextSlot(h);
      Pending(LogAll(h, recs).slots) ==
        if p + k <= n then Reports(recs)
        else Reports(recs[n - p..]) + Reports(recs[..n - p])
  {
    var n, k, p := |h.slots|, |recs|, NextSlot(h);
    SlotsAfterLogging(h, recs);
    NextSlotAfterFew(h, recs);
    if p + k <= n {
      DrainAfterFewUnwrapped(h.slots, recs, p, LogAll(h, recs).slots);
    } else {
      DrainAfterFewWrapped(h.slots, recs, p, LogAll(h, recs).slots);
    }
  }

  /** The run of k exits occupies slots p .. p + k - 1, the rest being empty. */
  lemma DrainAfterFewUnwrapped(before: seq<Record>, recs: seq<Record>, p: int, s: seq<Record>)
    requires 0 <= p && p + |recs| <= |before| == |s|
    requires forall j :: 0 <= j < |before| ==> !IsPending(before[j])
    requires forall i :: 0 <= i < |recs| ==> IsPending(recs[i])
    requires var n, k := |s|, |recs|; var q := if p + k < n then p + k else 0;
      forall j :: 0 <= j < n ==> s[j] == Survivor(before[j], recs, q, j, n)
    ensures Pending(s) == Reports(recs)
  {
    var n, k := |s|, |recs|;
    var q := if p + k < n then p + k else 0;
    forall j | 0 <= j < p ensures !IsPending(s[j]) {
      assert s[j] == Survivor(before[j], recs, q, j, n);
    }
    forall j | p <= j < p + k ensures s[j] == recs[j - p] {
      assert s[j] == Survivor(before[j], recs, q, j, n);
    }
    forall j | p + k <= j < n ensures !IsPending(s[j]) {
      assert s[j] == Survivor(before[j], recs, q, j, n);
    }
    assert s[p..p + k] == recs;
    PendingOfGap(s, p, p + k);
  }

  /** The run of k exits occupies slots p .. C - 1 and then 0 .. p + k - C - 1, the rest being empty. */
  lemma DrainAfterFewWrapped(before: seq<Record>, recs: seq<Record>, p: int, s: seq<Record>)
    requires 0 <= p < |before| == |s| && |recs| <= |s| < p + |recs|
    requires forall j :: 0 <= j < |before| ==> !IsPending(before[j])
    requires forall i :: 0 <= i < |recs| ==> IsPending(recs[i])
    requires var n, k := |s|, |recs|;
      forall j :: 0 <= j < n ==> s[j] == Survivor(before[j], recs, p + k - n, j, n)
    ensures Pending(s) == Reports(recs[|s| - p..]) + Reports(recs[..|s| - p])
  {
    var n, k := |s|, |recs|;
    var q := p + k - n;
    forall j | 0 <= j < n
      ensures j < q ==> s[j] == recs[n - p + j] && IsPending(s[j])
      ensures q <= j < p ==> !IsPending(s[j])
      ensures p <= j ==> s[j] == recs[j - p] && IsPending(s[j])
    {
      assert s[j] == Survivor(before[j], recs, q, j, n);
    }
    assert s[0..q] == recs[n - p..];
    assert s[p..|s|] == recs[..n - p];
    PendingAroundGap(s, q, p);
  }

  /** A fresh buffer of C slots: all empty, cursor 0. */
  function FreshHistory(cfg: Config): (h: History)
    requires cfg.Valid()
    ensures Wellformed(h) && |h.slots| == cfg.Capacity() && h.cursor == 0
    ensures forall j :: 0 <= j < |h.slots| ==> !IsPending(h.slots[j])
  {
    History(seq(cfg.Capacity(), _ => EmptyRecord(cfg)), 0)
  }

  function Pids(rows: seq<Row>): seq<int> {
    seq(|rows|, i requires 0 <= i < |rows| => rows[i].pid)
  }

  /**
   * C = 4 (CONFIG_MAX_TASKS = 2) and tasks 10, 11, 12, 13, 14 exit in that
   * order: the drain prints, in slot order, 14, 11, 12, 13 (task 10 was
   * overwritten), and a second drain prints nothing.
   */
  lemma WrapExample()
    ensures var cfg := Config(2, 0, false, 1024);
      var recs := seq(5, i requires 0 <= i < 5 => Record(100 + i, 10 + i, 2048, 512, None, None));
      var s := LogAll(FreshHistory(cfg), recs).slots;
      && Pids(Pending(s)) == [14, 11, 12, 13]
      && Pending(Cleared(s)) == []
  {
    var cfg := Config(2, 0, false, 1024);
    var recs := seq(5, i requires 0 <= i < 5 => Record(100 + i, 10 + i, 2048, 512, None, None));
    var h := FreshHistory(cfg);
    WrapKeepsNewest(h, recs);
    CursorAfterLogging(h, recs);
    var rows := Pending(LogAll(h, recs).slots);
    assert rows == Reports(recs[4..]) + Reports(recs[1..4]);
    assert Reports(recs[4..]) == [InactiveRow(recs[4])];
    assert Reports(recs[1..4]) == [InactiveRow(recs[1]), InactiveRow(recs[2]), InactiveRow(recs[3])];
    assert Pids(rows) == [14, 11, 12, 13];
    DrainExhausts(LogAll(h, recs).slots);
  }
}
