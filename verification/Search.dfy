/** Jackpot search: the sequential grind over ordinals 0, 1, 2, ... and the batched
    grind that must be indistinguishable from it. */
module Search {
  import opened Wrappers
  import opened Numbers

  /** The canonical ordinal space [0, 2^32). */
  const ORDINAL_SPACE: nat := U32_MAX + 1

  /** The winning ordinals in [lo, hi), in order. */
  function Wins(win: nat -> bool, lo: nat, hi: nat): (ws: seq<nat>)
    decreases hi
  {
    if hi <= lo then []
    else Wins(win, lo, hi - 1) + (if win(hi - 1) then [hi - 1] else [])
  }

  lemma {:induction false} WinsExact(win: nat -> bool, lo: nat, hi: nat)
    ensures ExactWins(win, lo, hi, Wins(win, lo, hi))
    decreases hi
  {
    if lo < hi {
      WinsExact(win, lo, hi - 1);
      OneMoreOrdinal(win, lo, hi - 1, Wins(win, lo, hi - 1));
    }
  }

  /** The winning ordinals in [lo, hi) and no others, ascending. */
  ghost predicate ExactWins(win: nat -> bool, lo: nat, hi: nat, ws: seq<nat>) {
    && (forall x: nat :: x in ws <==> lo <= x < hi && win(x))
    && (forall i, j :: 0 <= i < j < |ws| ==> ws[i] < ws[j])
  }

  lemma OneMoreOrdinal(win: nat -> bool, lo: nat, hi: nat, ws: seq<nat>)
    requires lo <= hi && ExactWins(win, lo, hi, ws)
    ensures ExactWins(win, lo, hi + 1, ws + (if win(hi) then [hi] else []))
  {
    assert forall i :: 0 <= i < |ws| ==> ws[i] in ws;
    var more := ws + (if win(hi) then [hi] else []);
    forall x: nat ensures x in more <==> lo <= x < hi + 1 && win(x) {
      assert x in more <==> x in ws || (x == hi && win(hi));
    }
  }

  /** A longer search extends the list. */
  lemma {:induction false} WinsExtend(win: nat -> bool, lo: nat, mid: nat, hi: nat)
    requires lo <= mid <= hi
    ensures Wins(win, lo, hi) == Wins(win, lo, mid) + Wins(win, mid, hi)
    decreases hi
  {
    if mid < hi { WinsExtend(win, lo, mid, hi - 1); }
  }

  /** Nothing wins in [start, start + len): the search may skip to its end. */
  lemma MissExtends(win: nat -> bool, start: nat, stop: nat)
    requires start <= stop && Wins(win, start, stop) == []
    ensures Wins(win, 0, stop) == Wins(win, 0, start)
  {
  }

  /** A first win at `ordinal` extends the list by it. */
  lemma WinExtends(win: nat -> bool, start: nat, ordinal: nat)
    requires start <= ordinal && win(ordinal) && Wins(win, start, ordinal) == []
    ensures Wins(win, 0, ordinal + 1) == Wins(win, 0, start) + [ordinal]
  {
    MissExtends(win, start, ordinal);
  }

  datatype Grind = Found(wins: seq<nat>, attempts: nat) | SpaceExhausted

  /** What a grind for k wins over ordinals below `bound` returns: the first k winning
      ordinals in order and the attempts through the last of them, or exhaustion when
      fewer than k ordinals below the bound win. */
  ghost predicate FirstKWins(win: nat -> bool, k: nat, bound: nat, r: Grind) {
    match r
    case SpaceExhausted => |Wins(win, 0, bound)| < k
    case Found(wins, attempts) =>
      && |wins| == k && k >= 1
      && attempts <= bound
      && wins == Wins(win, 0, attempts)
      && attempts == wins[k - 1] + 1
  }

  /** The sequential loop, with an ordinal of a fixed width whose increment is checked
      after the win is recorded: u32 for canonical-MoE, u64 for dense. */
  method GrindSequential(win: nat -> bool, k: nat, maxOrdinal: nat) returns (r: Grind)
    requires k >= 1
    ensures FirstKWins(win, k, maxOrdinal, r)
  {
    var wins: seq<nat> := [];
    var ordinal := 0;
    var attempts := 0;
    while |wins| < k
      invariant attempts == ordinal <= maxOrdinal
      invariant wins == Wins(win, 0, ordinal) && |wins| <= k
      invariant |wins| == k ==> wins[k - 1] == ordinal - 1
      decreases maxOrdinal - ordinal
    {
      attempts := attempts + 1;
      if win(ordinal) { wins := wins + [ordinal]; }
      if ordinal == maxOrdinal { return SpaceExhausted; }
      ordinal := ordinal + 1;
    }
    r := Found(wins, attempts);
  }

  datatype Batch = Batch(start: nat, len: nat)

  /** The ordered batch scheduler: a miss advances to the end of the batch, a win to
      the ordinal after the winner. */
  class BatchScheduler {
    const end: nat
    const batchAttempts: nat
    var next: nat

    constructor (end: nat, batchAttempts: nat)
      requires batchAttempts >= 1
      ensures this.end == end && this.batchAttempts == batchAttempts && next == 0
    {
      this.end, this.batchAttempts := end, batchAttempts;
      next := 0;
    }

    /** The next unvisited ordinals, as many as a launch takes; none at the end. */
    method NextBatch() returns (b: Option<Batch>)
      requires batchAttempts >= 1
      ensures b.None? <==> next >= end
      ensures b.Some? ==> b.value.start == next && 1 <= b.value.len <= batchAttempts
                          && b.value.start + b.value.len <= end
    {
      if next >= end { return None; }
      b := Some(Batch(next, if end - next < batchAttempts then end - next else batchAttempts));
    }

    method RecordMiss(b: Batch)
      requires b.start == next
      modifies this
      ensures next == old(next) + b.len
    {
      next := b.start + b.len;
    }

    method RecordWinner(b: Batch, ordinal: nat)
      requires b.start == next && b.start <= ordinal < b.start + b.len
      modifies this
      ensures next == ordinal + 1
    {
      next := ordinal + 1;
    }

    function AttemptsTried(): (n: nat)
      reads this
      ensures n == next
    {
      next
    }
  }

  /** The device search: the lowest winning ordinal of a batch. */
  method SearchBatch(win: nat -> bool, b: Batch) returns (r: Option<nat>)
    ensures r.None? ==> Wins(win, b.start, b.start + b.len) == []
    ensures r.Some? ==> && b.start <= r.value < b.start + b.len && win(r.value)
                        && Wins(win, b.start, r.value) == []
  {
    var i := b.start;
    while i < b.start + b.len
      invariant b.start <= i <= b.start + b.len
      invariant Wins(win, b.start, i) == []
    {
      if win(i) { return Some(i); }
      i := i + 1;
    }
    return None;
  }

  /** Where a grind for k wins stands when the ordinals below n have been searched. */
  ghost predicate Progress(win: nat -> bool, k: nat, wins: seq<nat>, n: nat) {
    wins == Wins(win, 0, n) && |wins| <= k && (|wins| == k && k > 0 ==> wins[k - 1] == n - 1)
  }

  lemma ProgressWin(win: nat -> bool, k: nat, wins: seq<nat>, start: nat, ordinal: nat)
    requires Progress(win, k, wins, start) && |wins| < k && start <= ordinal
    requires win(ordinal) && Wins(win, start, ordinal) == []
    ensures Progress(win, k, wins + [ordinal], ordinal + 1)
  {
    WinExtends(win, start, ordinal);
  }

  lemma ProgressMiss(win: nat -> bool, k: nat, wins: seq<nat>, start: nat, stop: nat)
    requires Progress(win, k, wins, start) && |wins| < k && start <= stop && Wins(win, start, stop) == []
    ensures Progress(win, k, wins, stop)
  {
    MissExtends(win, start, stop);
  }

  /** One launch: the next batch is searched and the scheduler moves past what it tried. */
  method Launch(win: nat -> bool, k: nat, scheduler: BatchScheduler, b: Batch, wins: seq<nat>)
    returns (now: seq<nat>)
    requires b.start == scheduler.next && b.len >= 1 && |wins| < k && Progress(win, k, wins, b.start)
    modifies scheduler
    ensures Progress(win, k, now, scheduler.next)
    ensures b.start < scheduler.next <= b.start + b.len
  {
    var winner := SearchBatch(win, b);
    match winner {
      case Some(ordinal) =>
        ProgressWin(win, k, wins, b.start, ordinal);
        scheduler.RecordWinner(b, ordinal);
        now := wins + [ordinal];
      case None =>
        ProgressMiss(win, k, wins, b.start, b.start + b.len);
        scheduler.RecordMiss(b);
        now := wins;
    }
  }

  /** The batched grind over the whole ordinal space. */
  method GrindBatched(win: nat -> bool, k: nat, batchAttempts: nat, space: nat) returns (r: Grind)
    requires k >= 1 && batchAttempts >= 1
    ensures FirstKWins(win, k, space, r)
  {
    var scheduler := new BatchScheduler(space, batchAttempts);
    var wins: seq<nat> := [];
    while |wins| < k
      invariant fresh(scheduler) && scheduler.next <= space && Progress(win, k, wins, scheduler.next)
      decreases space - scheduler.next
    {
      var batch := scheduler.NextBatch();
      if batch == None { return SpaceExhausted; }
      wins := Launch(win, k, scheduler, batch.value, wins);
    }
    r := Found(wins, scheduler.AttemptsTried());
  }

  /** Two completed grinds agree, whatever their bounds. */
  lemma FoundIsUnique(win: nat -> bool, k: nat, b: nat, c: nat, r: Grind, s: Grind)
    requires FirstKWins(win, k, b, r) && FirstKWins(win, k, c, s) && r.Found? && s.Found?
    ensures r == s
  {
    if r.attempts < s.attempts {
      FewerWinsBefore(win, r.attempts, s.attempts);
    } else if s.attempts < r.attempts {
      FewerWinsBefore(win, s.attempts, r.attempts);
    }
  }

  lemma FewerWinsBefore(win: nat -> bool, m: nat, n: nat)
    requires m < n
    requires var ws := Wins(win, 0, n); |ws| > 0 && ws[|ws| - 1] == n - 1
    ensures |Wins(win, 0, m)| < |Wins(win, 0, n)|
  {
    WinsExact(win, 0, n - 1);
    WinsExtend(win, 0, m, n - 1);
  }

  /** A grind succeeds exactly when at least k ordinals below its bound win. */
  lemma FoundIff(win: nat -> bool, k: nat, bound: nat, r: Grind)
    requires k >= 1 && FirstKWins(win, k, bound, r)
    ensures r.Found? <==> |Wins(win, 0, bound)| >= k
  {
  }

  /** Batching is invisible: for every predicate, k and batch size, the two grinds
      return the same wins and attempt count, except in one case. They differ exactly
      when the k-th win is the last u32 ordinal: there the sequential loop's checked
      increment fails after the win, and the scheduler's end bound does not. */
  lemma BatchedEqualsSequential(win: nat -> bool, k: nat, cpu: Grind, gpu: Grind)
    requires k >= 1
    requires FirstKWins(win, k, U32_MAX, cpu)
    requires FirstKWins(win, k, ORDINAL_SPACE, gpu)
    ensures cpu == gpu <==> !(win(4294967295) && |Wins(win, 0, 4294967295)| == k - 1)
    ensures cpu != gpu ==> cpu.SpaceExhausted? && gpu.Found? && gpu.attempts == ORDINAL_SPACE
  {
    FoundIff(win, k, U32_MAX, cpu);
    FoundIff(win, k, ORDINAL_SPACE, gpu);
    assert ORDINAL_SPACE - 1 == U32_MAX;
    if cpu.Found? && gpu.Found? {
      FoundIsUnique(win, k, U32_MAX, ORDINAL_SPACE, cpu, gpu);
    } else if gpu.Found? && gpu.attempts <= U32_MAX {
      WinsExtend(win, 0, gpu.attempts, U32_MAX);
    }
  }

  lemma {:induction false} NoWins(win: nat -> bool, lo: nat, hi: nat)
    requires forall x :: lo <= x < hi ==> !win(x)
    ensures Wins(win, lo, hi) == []
    decreases hi
  {
    if lo < hi { NoWins(win, lo, hi - 1); }
  }

  /** The excepted case is reachable: only the last ordinal wins, one win is wanted. */
  lemma LastOrdinalDiffers(cpu: Grind, gpu: Grind)
    requires FirstKWins(x => x == U32_MAX, 1, U32_MAX, cpu)
    requires FirstKWins(x => x == U32_MAX, 1, ORDINAL_SPACE, gpu)
    ensures cpu == SpaceExhausted && gpu == Found([U32_MAX], ORDINAL_SPACE)
  {
    var win: nat -> bool := x => x == U32_MAX;
    NoWins(win, 0, U32_MAX);
    BatchedEqualsSequential(win, 1, cpu, gpu);
    assert Wins(win, 0, ORDINAL_SPACE) == [] + [U32_MAX];
  }
}
