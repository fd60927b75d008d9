/**
 * The fixed-timestep scheduling of `Application::run()`: measured frame times
 * are accumulated, and `onUpdate` runs once for every whole `TimePerFrame`
 * the accumulator holds beyond one frame.
 */
module Application {
  import opened Ints
  import opened TimeSpans

  /**
   * `TimeSpan::seconds(1.f / 60.f)`: 1000 / 60 milliseconds, rounded half up
   * to 17 ms, i.e. 170000 ticks.
   */
  const TimePerFrame: TimeSpan := TimeSpan(170000)

  /** `TimePerFrame` is a whole number of milliseconds, the one nearest to a sixtieth of a second. */
  lemma TimePerFrameNearestMillisecond(ms: int)
    ensures TimePerFrame.ticks % TicksPerMillisecond == 0
    ensures Distance60(TimePerFrame.ticks / TicksPerMillisecond) <= Distance60(ms)
  {
  }

  /** How far `ms` milliseconds, times 60, is from one second. */
  function Distance60(ms: int): nat {
    if ms * 60 >= 1000 then ms * 60 - 1000 else 1000 - ms * 60
  }

  /** The number of `onUpdate` calls the inner loop makes when it starts from `acc` ticks. */
  function UpdatesDue(acc: int): (k: nat)
    ensures acc - k * TimePerFrame.ticks <= TimePerFrame.ticks
    ensures k > 0 ==> acc - (k - 1) * TimePerFrame.ticks > TimePerFrame.ticks
    decreases acc
  {
    if acc <= TimePerFrame.ticks then 0 else 1 + UpdatesDue(acc - TimePerFrame.ticks)
  }

  /** `UpdatesDue` is the least count that brings the accumulator down to one frame or less. */
  lemma UpdatesDueIsLeast(acc: int, j: nat)
    requires acc - j * TimePerFrame.ticks <= TimePerFrame.ticks
    ensures UpdatesDue(acc) <= j
  {
  }

  /**
   * One pass of the main loop, as far as scheduling goes: `timeSinceLastUpdate
   * += elapsed`, then `-= TimePerFrame` and `onUpdate(TimePerFrame)` while the
   * accumulator exceeds `TimePerFrame`. `updates` lists the arguments passed to
   * `onUpdate`; `overflow` is `+=` throwing, which ends the pass with the
   * accumulator unchanged.
   */
  method Frame(timeSinceLastUpdate: TimeSpan, elapsed: TimeSpan)
    returns (acc: TimeSpan, updates: seq<TimeSpan>, overflow: bool)
    ensures overflow <==> !InInt64(timeSinceLastUpdate.ticks + elapsed.ticks)
    ensures overflow ==> acc == timeSinceLastUpdate && updates == []
    ensures forall k :: 0 <= k < |updates| ==> updates[k] == TimePerFrame
    ensures !overflow ==>
      && acc.ticks == timeSinceLastUpdate.ticks + elapsed.ticks - |updates| * TimePerFrame.ticks
      && acc.ticks <= TimePerFrame.ticks
      && |updates| == UpdatesDue(timeSinceLastUpdate.ticks + elapsed.ticks)
    ensures !overflow && timeSinceLastUpdate.ticks + elapsed.ticks >= 0 ==> acc.ticks >= 0
  {
    var ok;
    acc, ok := AddAssign(timeSinceLastUpdate, elapsed);
    updates := [];
    overflow := !ok;
    if overflow {
      return;
    }
    ghost var start := acc.ticks;
    while Gt(acc, TimePerFrame)
      invariant acc.ticks + |updates| * TimePerFrame.ticks == start
      invariant |updates| + UpdatesDue(acc.ticks) == UpdatesDue(start)
      invariant forall k :: 0 <= k < |updates| ==> updates[k] == TimePerFrame
      invariant |updates| > 0 ==> acc.ticks > 0
      invariant start >= 0 ==> acc.ticks >= 0
      decreases acc.ticks
    {
      acc, ok := SubAssign(acc, TimePerFrame);
      updates := updates + [TimePerFrame];
    }
  }

  /** The total of the measured frame times. */
  function TotalElapsed(elapsed: seq<TimeSpan>): int {
    if elapsed == [] then 0 else TotalElapsed(elapsed[..|elapsed| - 1]) + elapsed[|elapsed| - 1].ticks
  }

  /** With non-negative frame times, a prefix never totals more than the whole. */
  lemma {:induction false} TotalElapsedPrefix(elapsed: seq<TimeSpan>, i: nat)
    requires forall k :: 0 <= k < |elapsed| ==> elapsed[k].ticks >= 0
    requires i <= |elapsed|
    ensures TotalElapsed(elapsed[..i]) <= TotalElapsed(elapsed)
    decreases |elapsed|
  {
    if i < |elapsed| {
      var init := elapsed[..|elapsed| - 1];
      assert init[..i] == elapsed[..i];
      TotalElapsedPrefix(init, i);
    } else {
      assert elapsed[..i] == elapsed;
    }
  }

  /**
   * The main loop over a sequence of measured frame times, starting from
   * `Zero`: between passes the accumulator stays in [0, TimePerFrame], and what
   * was accumulated is exactly what the updates consumed plus what is left.
   * `+=` can throw only once the frame times total more than a `long` holds.
   */
  method Run(elapsed: seq<TimeSpan>) returns (acc: TimeSpan, updates: nat, overflow: bool)
    requires forall k :: 0 <= k < |elapsed| ==> elapsed[k].ticks >= 0
    ensures 0 <= acc.ticks <= TimePerFrame.ticks
    ensures !overflow ==> acc.ticks + updates * TimePerFrame.ticks == TotalElapsed(elapsed)
    ensures overflow ==> TotalElapsed(elapsed) > MaxLong
  {
    acc, updates, overflow := Zero, 0, false;
    var i := 0;
    while i < |elapsed| && !overflow
      invariant 0 <= i <= |elapsed|
      invariant 0 <= acc.ticks <= TimePerFrame.ticks
      invariant !overflow ==> acc.ticks + updates * TimePerFrame.ticks == TotalElapsed(elapsed[..i])
      invariant overflow ==> TotalElapsed(elapsed[..i]) > MaxLong
    {
      assert elapsed[..i + 1][..i] == elapsed[..i];
      var passed;
      acc, passed, overflow := Frame(acc, elapsed[i]);
      updates := updates + |passed|;
      i := i + 1;
    }
    if overflow {
      TotalElapsedPrefix(elapsed, i);
    } else {
      assert elapsed[..i] == elapsed;
    }
  }
}
