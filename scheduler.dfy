/**
 * The bookkeeping of `start_multithread_task`: lines are handed to worker
 * threads in cohorts of `threadCnt`; a full cohort is joined before the next
 * one starts; after every line a progress bar is printed when the
 * percentage of joined lines has changed.
 *
 * Threads are abstracted to their slot in `thread_pool`: launching a task
 * puts it Running in the next slot, joining it marks it Joined. Which task
 * a slot runs is the index of its line, and what a task does is
 * `Render.RenderLabel` and `Label`, not repeated here.
 */
module Scheduler {
  import opened Decimal
  import opened Label

  // ------------------------------------------------------------ progress

  /**
   * `idx` after `seen` lines: it grows by a whole cohort when the line just
   * launched fills the last slot, and stays put otherwise.
   */
  function CohortStart(n: nat, seen: nat): (idx: nat)
    requires n >= 1
    ensures idx <= seen
  {
    if seen == 0 then 0
    else
      var prev := CohortStart(n, seen - 1);
      if seen - prev == n then seen else prev
  }

  /** Integer division rounds down: the quotient brackets the dividend. */
  lemma DivBracket(a: nat, d: nat)
    requires d >= 1
    ensures (a / d) * d <= a < (a / d + 1) * d
  {
    assert a == (a / d) * d + a % d;
    MulSucc(a / d, d);
  }

  lemma DivModUnique(a: nat, n: nat, q: nat, r: nat)
    requires n >= 1 && r < n && a == q * n + r
    ensures a / n == q && a % n == r
  {
    var q' := a / n;
    assert q' * n <= a < (q' + 1) * n;
    MulCancelLess(q', q + 1, n);
    MulCancelLess(q, q' + 1, n);
  }

  lemma MulCancelLess(x: int, y: int, d: int)
    requires d > 0 && x * d < y * d
    ensures x < y
  {
  }

  /** `idx` trails the lines seen by less than one cohort. */
  lemma {:induction false} CohortStartTrails(n: nat, seen: nat)
    requires n >= 1
    ensures CohortStart(n, seen) <= seen < CohortStart(n, seen) + n
  {
    if seen > 0 {
      CohortStartTrails(n, seen - 1);
    }
  }

  /**
   * `idx` is the number of lines in completed full cohorts: N times
   * floor(seen / N), so always a multiple of N.
   */
  lemma {:induction false} CohortStartClosedForm(n: nat, seen: nat)
    requires n >= 1
    ensures CohortStart(n, seen) == (seen / n) * n
    ensures CohortStart(n, seen) % n == 0
    ensures seen - CohortStart(n, seen) == seen % n
  {
    var q := CohortsCompleted(n, seen);
    CohortStartTrails(n, seen);
    DivModUnique(seen, n, q, seen - q * n);
    DivModUnique(CohortStart(n, seen), n, q, 0);
  }

  lemma MulSucc(q: nat, n: nat)
    ensures (q + 1) * n == q * n + n
  {
  }

  /** The number of full cohorts behind `idx`. */
  lemma {:induction false} CohortsCompleted(n: nat, seen: nat) returns (q: nat)
    requires n >= 1
    ensures CohortStart(n, seen) == q * n
  {
    if seen == 0 {
      q := 0;
    } else {
      q := CohortsCompleted(n, seen - 1);
      if seen - CohortStart(n, seen - 1) == n {
        MulSucc(q, n);
        q := q + 1;
      }
    }
  }

  /** `idx * 100 / total` after `seen` lines. */
  function Percentage(total: nat, n: nat, seen: nat): (p: nat)
    requires n >= 1 && total >= 1
    ensures p * total <= CohortStart(n, seen) * 100 < (p + 1) * total
  {
    var scaled := CohortStart(n, seen) * 100;
    DivBracket(scaled, total);
    scaled / total
  }

  lemma PercentageAtMost100(total: nat, n: nat, seen: nat)
    requires n >= 1 && 1 <= total && seen <= total
    ensures Percentage(total, n, seen) <= 100
  {
    CohortStartTrails(n, seen);
    var c := CohortStart(n, seen);
    assert c * 100 <= total * 100;
    DivMonotone(c * 100, total * 100, total);
    DivModUnique(total * 100, total, 100, 0);
  }

  lemma DivMonotone(a: nat, b: nat, d: nat)
    requires a <= b && d >= 1
    ensures a / d <= b / d
  {
    MulCancelLess(a / d, b / d + 1, d);
  }

  lemma {:induction false} PercentageMonotone(total: nat, n: nat, s: nat, t: nat)
    requires n >= 1 && total >= 1 && s <= t
    ensures Percentage(total, n, s) <= Percentage(total, n, t)
  {
    CohortStartMonotone(n, s, t);
    DivMonotone(CohortStart(n, s) * 100, CohortStart(n, t) * 100, total);
  }

  lemma {:induction false} CohortStartMonotone(n: nat, s: nat, t: nat)
    requires n >= 1 && s <= t
    ensures CohortStart(n, s) <= CohortStart(n, t)
  {
    if s < t {
      CohortStartMonotone(n, s, t - 1);
      CohortStartTrails(n, t - 1);
    }
  }

  /**
   * The bar is complete (100%) after the last line exactly when the thread
   * count divides the number of lines: the lines of a trailing partial cohort
   * are never added to `idx`.
   */
  lemma ReachesHundredIff(total: nat, n: nat)
    requires n >= 1 && total >= 1
    ensures Percentage(total, n, total) == 100 <==> total % n == 0
  {
    var c := CohortStart(n, total);
    CohortStartTrails(n, total);
    CohortStartClosedForm(n, total);
    if total % n == 0 {
      assert c == total;
      DivModUnique(total * 100, total, 100, 0);
    } else {
      assert c < total;
      var pct := c * 100 / total;
      assert pct * total <= c * 100 < 100 * total;
      MulCancelLess(pct, 100, total);
    }
  }

  /** The percentages `start_multithread_task` prints after `seen` lines, in order. */
  function ProgressPercents(total: nat, n: nat, seen: nat): seq<nat>
    requires n >= 1 && seen <= total
  {
    if seen == 0 then []
    else
      var before := ProgressPercents(total, n, seen - 1);
      var p := Percentage(total, n, seen);
      // `last_percentage` always equals the percentage after the previous line
      if p != (if seen == 1 then 0 else Percentage(total, n, seen - 1)) then before + [p] else before
  }

  /** `fprintf("%3d%% ")`, `percentage` times `#`, then a newline. */
  function ProgressLine(percentage: nat): (line: string)
    ensures var w := |PadLeft(NatToDecimal(percentage), 3)|;
            3 <= w && |line| == w + 2 + percentage + 1 &&
            line[w..w + 2] == "% " && line[|line| - 1] == '\n' &&
            forall k :: w + 2 <= k < w + 2 + percentage ==> line[k] == '#'
  {
    PadLeft(NatToDecimal(percentage), 3) + "% " + Repeat('#', percentage) + "\n"
  }

  /** A progress line carries exactly `percentage` `#` characters. */
  lemma ProgressLineHashes(percentage: nat)
    ensures Count('#', ProgressLine(percentage)) == percentage
  {
    var num := PadLeft(NatToDecimal(percentage), 3);
    var sep, hashes, newline := "% ", Repeat('#', percentage), "\n";
    forall k | 0 <= k < |num|
      ensures num[k] != '#'
    {
      PaddedDecimalChars(percentage, 3, k);
    }
    CountAbsent('#', num);
    CountAbsent('#', sep);
    CountAbsent('#', newline);
    CountRepeat('#', percentage);
    CountAppend('#', num, sep);
    CountAppend('#', num + sep, hashes);
    CountAppend('#', num + sep + hashes, newline);
    assert ProgressLine(percentage) == num + sep + hashes + newline;
  }

  /**
   * The `%3d` field of a progress line reads back as the percentage: spaces,
   * then the digits of `percentage`, ending where the `"% "` begins.
   */
  lemma ProgressLineReportsPercentage(percentage: nat)
    ensures var line := ProgressLine(percentage);
            var d := NatToDecimal(percentage);
            var w := |PadLeft(d, 3)|;
            && w <= |line|
            && (forall k :: 0 <= k < w - |d| ==> line[k] == ' ')
            && (forall k :: w - |d| <= k < w ==> IsDigit(line[k]))
            && DecimalValue(line[w - |d|..w]) == percentage
  {
    var line := ProgressLine(percentage);
    var d := NatToDecimal(percentage);
    var num := PadLeft(d, 3);
    assert line[..|num|] == num;
    assert line[|num| - |d|..|num|] == num[|num| - |d|..] == d;
    DecimalRoundTrip(percentage);
  }

  /** The lines printed while the loop runs, one per printed percentage. */
  function ProgressLog(total: nat, n: nat, seen: nat): (log: seq<string>)
    requires n >= 1 && seen <= total
  {
    var ps := ProgressPercents(total, n, seen);
    seq(|ps|, k requires 0 <= k < |ps| => ProgressLine(ps[k]))
  }

  /** One more line adds a progress line exactly when the percentage changed. */
  lemma ProgressLogStep(total: nat, n: nat, seen: nat)
    requires n >= 1 && seen < total
    ensures ProgressLog(total, n, seen + 1) ==
            ProgressLog(total, n, seen) +
            (if Percentage(total, n, seen + 1) != (if seen == 0 then 0 else Percentage(total, n, seen))
             then [ProgressLine(Percentage(total, n, seen + 1))] else [])
  {
  }

  /** `fprintf("Finished %d QRCode.\n", total)`. */
  function FinishedMessage(total: nat): (msg: string)
    ensures 9 + 9 < |msg| && msg[..9] == "Finished " && msg[|msg| - 9..] == " QRCode.\n"
  {
    "Finished " + NatToDecimal(total) + " QRCode.\n"
  }

  /** The closing message reports the number of lines. */
  lemma FinishedMessageReportsTotal(total: nat)
    ensures var msg := FinishedMessage(total);
            9 + 9 <= |msg| && msg[..9] == "Finished " && msg[|msg| - 9..] == " QRCode.\n" &&
            (forall k :: 9 <= k < |msg| - 9 ==> IsDigit(msg[k])) &&
            DecimalValue(msg[9..|msg| - 9]) == total
  {
    var msg := FinishedMessage(total);
    assert msg[9..|msg| - 9] == NatToDecimal(total);
    DecimalRoundTrip(total);
  }

  /**
   * What is printed is a strictly increasing run of percentages in (0, 100];
   * the last one is the current percentage, and nothing is printed while the
   * percentage is still 0.
   */
  lemma {:induction false} ProgressPercentsIncrease(total: nat, n: nat, seen: nat)
    requires n >= 1 && seen <= total
    ensures var ps := ProgressPercents(total, n, seen);
            (forall a, b :: 0 <= a < b < |ps| ==> ps[a] < ps[b]) &&
            (forall a :: 0 <= a < |ps| ==> 0 < ps[a] <= 100) &&
            (seen >= 1 ==> (ps == [] <==> Percentage(total, n, seen) == 0)) &&
            (ps != [] ==> ps[|ps| - 1] == Percentage(total, n, seen))
  {
    if seen >= 1 {
      ProgressPercentsIncrease(total, n, seen - 1);
      PercentageAtMost100(total, n, seen);
      if seen > 1 {
        PercentageMonotone(total, n, seen - 1, seen);
      }
    }
  }

  /** Every printed percentage is a non-zero value the percentage took after some line. */
  lemma {:induction false} PrintedPercentWasReached(total: nat, n: nat, seen: nat, p: nat)
    requires n >= 1 && seen <= total
    requires p in ProgressPercents(total, n, seen)
    ensures p > 0 && exists j :: 1 <= j <= seen && Percentage(total, n, j) == p
  {
    ProgressPercentsIncrease(total, n, seen);
    if p != Percentage(total, n, seen) {
      PrintedPercentWasReached(total, n, seen - 1, p);
    }
  }

  /** Every non-zero value the percentage takes after some line gets printed. */
  lemma {:induction false} ReachedPercentIsPrinted(total: nat, n: nat, seen: nat, j: nat)
    requires n >= 1 && seen <= total
    requires 1 <= j <= seen && Percentage(total, n, j) > 0
    ensures Percentage(total, n, j) in ProgressPercents(total, n, seen)
  {
    if j < seen {
      ReachedPercentIsPrinted(total, n, seen - 1, j);
    } else {
      ProgressPercentsIncrease(total, n, seen - 1);
      ProgressPercentsIncrease(total, n, seen);
    }
  }

  // -------------------------------------------------------------- threads

  /** One entry of `thread_pool`. */
  datatype Slot = Empty | Running(task: nat) | Joined(task: nat)

  /**
   * `pthread_join` on each slot in turn; `None` when one of them holds no
   * joinable thread (never created, or already joined), which POSIX leaves
   * undefined.
   */
  function JoinEach(slots: seq<Slot>): (r: Option<seq<Slot>>)
    ensures r.Some? ==> |r.value| == |slots|
  {
    if slots == [] then Some([])
    else match JoinEach(slots[..|slots| - 1])
      case None => None
      case Some(front) =>
        var s := slots[|slots| - 1];
        if s.Running? then Some(front + [Joined(s.task)]) else None
  }

  /** Joining succeeds exactly when every slot holds a running thread, and it joins each one. */
  lemma {:induction false} JoinEachDefinedIff(slots: seq<Slot>)
    ensures JoinEach(slots).Some? <==> forall k :: 0 <= k < |slots| ==> slots[k].Running?
    ensures JoinEach(slots).Some? ==>
              forall k :: 0 <= k < |slots| ==> JoinEach(slots).value[k] == Joined(slots[k].task)
  {
    if slots != [] {
      JoinEachDefinedIff(slots[..|slots| - 1]);
    }
  }

  /**
   * The trailing join of `start_multithread_task` as written joins all
   * `threadCnt` slots. After the loop the slot at `thread_idx` never holds a
   * running thread (it was joined with an earlier cohort, or never created),
   * so that join is undefined on every run.
   */
  lemma TrailingJoinAsWrittenUndefined(slots: seq<Slot>, threadIdx: nat)
    requires threadIdx < |slots| && !slots[threadIdx].Running?
    ensures JoinEach(slots) == None
  {
    JoinEachDefinedIff(slots);
  }

  /** Finishing one unjoined task leaves one fewer unjoined. */
  lemma FinishOne(launched: set<nat>, finished: set<nat>, t: nat)
    requires finished <= launched && t in launched - finished
    ensures finished + {t} <= launched
    ensures |launched - (finished + {t})| == |launched - finished| - 1
  {
    assert launched - (finished + {t}) == (launched - finished) - {t};
  }

  /**
   * The slots before `threadIdx` run distinct unjoined tasks, no other slot
   * runs anything, and these are all the unjoined tasks: at most `|slots|`
   * launched tasks are ever unjoined.
   */
  ghost predicate PoolInvariant(slots: seq<Slot>, threadIdx: nat, launched: set<nat>, finished: set<nat>)
  {
    && threadIdx <= |slots|
    && finished <= launched
    && |launched - finished| == threadIdx
    && (forall k :: 0 <= k < threadIdx ==> slots[k].Running? && slots[k].task in launched - finished)
    && (forall k :: threadIdx <= k < |slots| ==> !slots[k].Running?)
    && (forall k, k' :: 0 <= k < k' < threadIdx ==> slots[k].task != slots[k'].task)
  }

  /** Launching a task nobody launched before into the next free slot keeps the invariant. */
  lemma LaunchKeepsInvariant(slots: seq<Slot>, threadIdx: nat, launched: set<nat>, finished: set<nat>, task: nat)
    requires PoolInvariant(slots, threadIdx, launched, finished)
    requires threadIdx < |slots| && task !in launched
    ensures PoolInvariant(slots[threadIdx := Running(task)], threadIdx + 1, launched + {task}, finished)
  {
    assert (launched + {task}) - finished == (launched - finished) + {task};
  }

  /**
   * Part way through joining a cohort: `slots` is `start` with the first
   * `i` of its `threadIdx` running slots joined, and `finished` has grown by
   * exactly their tasks.
   */
  ghost predicate JoinProgress(start: seq<Slot>, slots: seq<Slot>, i: nat, threadIdx: nat, launched: set<nat>, finished: set<nat>)
  {
    && i <= threadIdx <= |start| == |slots|
    && finished <= launched
    && |launched - finished| == threadIdx - i
    && (forall k :: 0 <= k < threadIdx ==> start[k].Running?)
    && (forall k :: threadIdx <= k < |start| ==> !start[k].Running?)
    && (forall k, k' :: 0 <= k < k' < threadIdx ==> start[k].task != start[k'].task)
    && (forall k :: i <= k < threadIdx ==> start[k].task in launched - finished)
    && (forall k :: 0 <= k < i ==> slots[k] == Joined(start[k].task))
    && (forall k :: i <= k < |slots| ==> slots[k] == start[k])
  }

  /** Before any join, the pool invariant is join progress with nothing joined. */
  lemma JoinStart(start: seq<Slot>, threadIdx: nat, launched: set<nat>, finished: set<nat>)
    requires PoolInvariant(start, threadIdx, launched, finished)
    ensures JoinProgress(start, start, 0, threadIdx, launched, finished)
  {
  }

  /** Joining slot `i` finishes its task and keeps the join progress. */
  lemma JoinStep(start: seq<Slot>, slots: seq<Slot>, i: nat, threadIdx: nat, launched: set<nat>, finished: set<nat>)
    requires JoinProgress(start, slots, i, threadIdx, launched, finished) && i < threadIdx
    ensures slots[i] == start[i] && slots[i].Running?
    ensures JoinProgress(start, slots[i := Joined(slots[i].task)], i + 1, threadIdx, launched, finished + {slots[i].task})
  {
    FinishOne(launched, finished, start[i].task);
  }

  /**
   * Once every running slot is joined, every launched task is finished, the
   * slots hold no running thread, and the cohort was joined slot by slot.
   */
  lemma JoinDone(start: seq<Slot>, slots: seq<Slot>, threadIdx: nat, launched: set<nat>, finished: set<nat>)
    requires JoinProgress(start, slots, threadIdx, threadIdx, launched, finished)
    ensures finished == launched
    ensures PoolInvariant(slots, 0, launched, finished)
    ensures JoinEach(start[..threadIdx]) == Some(slots[..threadIdx])
    ensures slots[threadIdx..] == start[threadIdx..]
  {
    assert launched - finished == {};
    JoinEachDefinedIff(start[..threadIdx]);
    assert slots[..threadIdx] == JoinEach(start[..threadIdx]).value;
  }

  /** `thread_pool` with its cursor `thread_idx`, and which tasks were launched and joined. */
  class ThreadPool {
    const size: nat
    const slots: array<Slot>
    var threadIdx: nat
    ghost var launched: set<nat>
    ghost var finished: set<nat>

    /** A pool of `size` slots whose contents satisfy `PoolInvariant`. */
    ghost predicate Valid()
      reads this, slots
    {
      size >= 1 && slots.Length == size && PoolInvariant(slots[..], threadIdx, launched, finished)
    }

    /** `pthread_t thread_pool[thread_cnt]`: no slot holds a thread yet. */
    constructor (n: nat)
      requires n >= 1
      ensures Valid() && fresh(slots)
      ensures size == n && threadIdx == 0 && launched == {} && finished == {}
      ensures forall k :: 0 <= k < n ==> slots[k] == Empty
    {
      size := n;
      slots := new Slot[n](_ => Empty);
      threadIdx := 0;
      launched, finished := {}, {};
    }

    /** `pthread_create(&thread_pool[thread_idx++], ...)` for a new task. */
    method Launch(task: nat)
      requires Valid() && threadIdx < size && task !in launched
      modifies this, slots
      ensures Valid()
      ensures threadIdx == old(threadIdx) + 1
      ensures slots[old(threadIdx)] == Running(task)
      ensures forall k :: 0 <= k < size && k != old(threadIdx) ==> slots[k] == old(slots[k])
      ensures launched == old(launched) + {task} && finished == old(finished)
    {
      LaunchKeepsInvariant(slots[..], threadIdx, launched, finished, task);
      slots[threadIdx] := Running(task);
      threadIdx := threadIdx + 1;
      launched := launched + {task};
    }

    /**
     * The cohort barrier: join the slots before `thread_idx` and start
     * again at slot 0. Every launched task is then finished.
     */
    method JoinLaunched()
      requires Valid()
      modifies this, slots
      ensures Valid()
      ensures threadIdx == 0
      ensures launched == old(launched) && finished == launched
      ensures JoinEach(old(slots[..threadIdx])) == Some(slots[..old(threadIdx)])
      ensures forall k :: old(threadIdx) <= k < size ==> slots[k] == old(slots[k])
    {
      ghost var start := slots[..];
      JoinStart(start, threadIdx, launched, finished);
      var i := 0;
      while i < threadIdx
        invariant threadIdx == old(threadIdx) && launched == old(launched) && slots.Length == size
        invariant JoinProgress(start, slots[..], i, threadIdx, launched, finished)
      {
        JoinStep(start, slots[..], i, threadIdx, launched, finished);
        var t := slots[i].task;
        slots[i] := Joined(t);
        finished := finished + {t};
        i := i + 1;
      }
      JoinDone(start, slots[..], threadIdx, launched, finished);
      threadIdx := 0;
    }

    /**
     * One pass of the loop's thread handling: launch the task into the next
     * slot and, when that fills the last slot, join the whole cohort.
     */
    method Dispatch(task: nat) returns (cohortJoined: bool)
      requires Valid() && threadIdx < size && task !in launched
      modifies this, slots
      ensures Valid()
      ensures cohortJoined <==> old(threadIdx) + 1 == size
      ensures threadIdx == if cohortJoined then 0 else old(threadIdx) + 1
      ensures launched == old(launched) + {task}
      ensures finished == if cohortJoined then launched else old(finished)
      ensures !cohortJoined ==> slots[..] == old(slots[..])[old(threadIdx) := Running(task)]
      ensures cohortJoined ==>
                forall k :: 0 <= k < size ==>
                  slots[k] == Joined(if k == old(threadIdx) then task else old(slots[k]).task)
    {
      Launch(task);
      ghost var mid := slots[..];
      cohortJoined := threadIdx == size;
      if cohortJoined {
        JoinLaunched();
        JoinEachDefinedIff(mid);
        assert mid[..size] == mid;
      } else {
        assert slots[..] == old(slots[..])[old(threadIdx) := Running(task)];
      }
    }
  }

  // ------------------------------------------------------------ the loop

  /** The tasks of the first `n` lines: {0, ..., n - 1}. */
  function FirstTasks(n: nat): set<nat>
  {
    if n == 0 then {} else FirstTasks(n - 1) + {n - 1}
  }

  lemma {:induction false} FirstTasksMembers(n: nat, t: nat)
    ensures t in FirstTasks(n) <==> t < n
  {
    if n > 0 {
      FirstTasksMembers(n - 1, t);
    }
  }

  /**
   * The progress step after each line: compute `idx * 100 / total` and print
   * a bar only when it differs from `last_percentage`.
   */
  method ReportProgress(total: nat, n: nat, seen: nat, idx: nat, lastPercentage: nat, output: seq<string>)
    returns (output': seq<string>, lastPercentage': nat)
    requires n >= 1 && 1 <= seen <= total
    requires idx == CohortStart(n, seen)
    requires lastPercentage == if seen == 1 then 0 else Percentage(total, n, seen - 1)
    requires output == ProgressLog(total, n, seen - 1)
    ensures lastPercentage' == Percentage(total, n, seen) && lastPercentage' <= 100
    ensures output' == ProgressLog(total, n, seen)
  {
    PercentageAtMost100(total, n, seen);
    ProgressLogStep(total, n, seen - 1);
    var percentage := (idx * 100) / total;
    output', lastPercentage' := output, lastPercentage;
    if percentage != lastPercentage {
      output' := output + [ProgressLine(percentage)];
      lastPercentage' := percentage;
    }
  }

  /** How `idx` moves when one more task is dispatched with `threadIdx` slots already busy. */
  lemma CohortStartStep(n: nat, seen: nat, threadIdx: nat)
    requires n >= 1 && threadIdx < n && CohortStart(n, seen) + threadIdx == seen
    ensures CohortStart(n, seen + 1) == if threadIdx + 1 == n then seen + 1 else CohortStart(n, seen)
  {
  }

  /** Launch task `seen` and join its cohort if that fills the pool; `idx` follows. */
  method DispatchOne(pool: ThreadPool, seen: nat, idx: nat) returns (idx': nat)
    requires pool.Valid() && pool.launched == FirstTasks(seen)
    requires idx == CohortStart(pool.size, seen) && idx + pool.threadIdx == seen && pool.threadIdx < pool.size
    requires pool.finished == FirstTasks(idx)
    modifies pool, pool.slots
    ensures pool.Valid() && pool.launched == FirstTasks(seen + 1)
    ensures pool.finished == FirstTasks(idx')
    ensures idx' == CohortStart(pool.size, seen + 1) && idx' + pool.threadIdx == seen + 1 && pool.threadIdx < pool.size
  {
    var n := pool.size;
    CohortStartStep(n, seen, pool.threadIdx);
    FirstTasksMembers(seen, seen);
    var cohortJoined := pool.Dispatch(seen);
    assert pool.launched == FirstTasks(seen + 1);
    idx' := idx;
    if cohortJoined {
      idx' := idx + n;
    }
  }

  /**
   * The `for` loop of `start_multithread_task`: every line is dispatched to a
   * thread slot as task `seen`, full cohorts are joined and `idx` advanced,
   * and progress is reported after each line.
   */
  method DispatchLines(pool: ThreadPool, total: nat) returns (output: seq<string>)
    requires pool.Valid() && pool.threadIdx == 0 && pool.launched == {}
    modifies pool, pool.slots
    ensures pool.Valid() && pool.threadIdx < pool.size
    ensures pool.launched == FirstTasks(total)
    ensures pool.finished == FirstTasks(CohortStart(pool.size, total))
    ensures pool.threadIdx == total - CohortStart(pool.size, total) == total % pool.size
    ensures output == ProgressLog(total, pool.size, total)
  {
    var threadCnt := pool.size;
    var idx := 0;
    var lastPercentage := 0;
    output := [];
    var seen := 0;
    while seen < total
      invariant seen <= total
      invariant pool.Valid() && pool.size == threadCnt
      invariant idx == CohortStart(threadCnt, seen) && idx + pool.threadIdx == seen && pool.threadIdx < threadCnt
      invariant pool.launched == FirstTasks(seen)
      invariant pool.finished == FirstTasks(idx)
      invariant lastPercentage == if seen == 0 then 0 else Percentage(total, threadCnt, seen)
      invariant output == ProgressLog(total, threadCnt, seen)
    {
      idx := DispatchOne(pool, seen, idx);
      output, lastPercentage := ReportProgress(total, threadCnt, seen + 1, idx, lastPercentage, output);
      seen := seen + 1;
    }
    CohortStartClosedForm(threadCnt, total);
  }

  /**
   * `start_multithread_task` over `|fileContent|` lines and `threadCnt`
   * threads, with the trailing join limited to the slots of the last,
   * partial cohort. Returns what it prints and its status; the ghost results
   * are the tasks joined by the end and the slots as they stand before the
   * trailing join, on which the join of all `threadCnt` slots is undefined.
   */
  method StartMultithreadTask(fileContent: seq<string>, threadCnt: int)
    returns (output: seq<string>, status: int, ghost joined: set<nat>, ghost slotsAtEnd: seq<Slot>)
    requires threadCnt >= 1
    ensures status == 0
    ensures output == ProgressLog(|fileContent|, threadCnt, |fileContent|) + [FinishedMessage(|fileContent|)]
    ensures joined == FirstTasks(|fileContent|)
    ensures |slotsAtEnd| == threadCnt && JoinEach(slotsAtEnd) == None
    ensures PoolInvariant(slotsAtEnd, |fileContent| % threadCnt, FirstTasks(|fileContent|),
                          FirstTasks(CohortStart(threadCnt, |fileContent|)))
  {
    var pool := new ThreadPool(threadCnt);
    var total := |fileContent|;
    output := DispatchLines(pool, total);
    slotsAtEnd := pool.slots[..];
    TrailingJoinAsWrittenUndefined(slotsAtEnd, pool.threadIdx);
    pool.JoinLaunched();
    joined := pool.finished;
    output := output + [FinishedMessage(total)];
    status := 0;
  }
}
