/// The idle sleep watcher: the idle time measured from the later of the last
/// input and a baseline tick, and the loop that requests sleep once the
/// idle time reaches the threshold and then moves the baseline to the tick
/// read after the request returns. Ticks and idle times are in
/// milliseconds; the Windows calls that read them and suspend the machine
/// are inputs.
module SleepWatcher {
  import opened Wrappers

  /** `INACTIVITY_SECONDS`: five minutes (the module's docstring speaks of
      fifteen; the constant is five). */
  const InactivitySeconds: int := 5 * 60
  const InactivityMs: int := InactivitySeconds * 1000

  /** `get_idle_seconds` in milliseconds: the time since the later of the
      last input and the baseline, never negative. It is at most the time
      since the last input and at most the time since the baseline, and it
      reaches the inactivity time exactly when both of those do. */
  function IdleMs(lastResetTick: Option<int>, lastInputMs: int, nowMs: int): (r: nat)
    ensures r <= (if nowMs - lastInputMs < 0 then 0 else nowMs - lastInputMs)
    ensures lastResetTick.Some? ==>
      r <= (if nowMs - lastResetTick.value < 0 then 0 else nowMs - lastResetTick.value)
    ensures r > 0 ==> r == nowMs - lastInputMs || (lastResetTick.Some? && r == nowMs - lastResetTick.value)
    ensures r >= InactivityMs <==>
      nowMs - lastInputMs >= InactivityMs && (lastResetTick.Some? ==> nowMs - lastResetTick.value >= InactivityMs)
  {
    var last := if lastResetTick.Some? && lastResetTick.value > lastInputMs then lastResetTick.value else lastInputMs;
    var idle := nowMs - last;
    if idle < 0 then 0 else idle
  }

  /** `idle >= INACTIVITY_SECONDS`, with `idle = idle_ms / 1000.0`: the
      division is exact enough that this is `idle_ms >= 300000`. */
  predicate SleepDue(idleMs: nat) {
    idleMs >= InactivityMs
  }

  /** What one pass of the loop reads: the tick of the last input, the
      current tick, and the tick read once the sleep request has returned
      (used only when sleep was requested). */
  datatype Sample = Sample(lastInputMs: int, nowMs: int, afterSleepMs: int)

  /** The baseline after a run of passes started at tick `start`. */
  function Baseline(start: int, samples: seq<Sample>): int {
    if samples == [] then start
    else
      var b := Baseline(start, samples[..|samples| - 1]);
      var s := samples[|samples| - 1];
      if SleepDue(IdleMs(Some(b), s.lastInputMs, s.nowMs)) then s.afterSleepMs else b
  }

  /** Whether each pass requested sleep. */
  function Sleeps(start: int, samples: seq<Sample>): (r: seq<bool>)
    ensures |r| == |samples|
  {
    if samples == [] then []
    else
      var init := samples[..|samples| - 1];
      var s := samples[|samples| - 1];
      Sleeps(start, init) + [SleepDue(IdleMs(Some(Baseline(start, init)), s.lastInputMs, s.nowMs))]
  }

  /** The sleep decisions of a longer run begin with those of a shorter one. */
  lemma {:induction false} SleepsPrefix(start: int, samples: seq<Sample>, k: nat)
    requires k <= |samples|
    ensures Sleeps(start, samples)[..k] == Sleeps(start, samples[..k])
    decreases |samples|
  {
    if k < |samples| {
      var init := samples[..|samples| - 1];
      SleepsPrefix(start, init, k);
      assert init[..k] == samples[..k];
      assert Sleeps(start, samples)[..|init|] == Sleeps(start, init);
    } else {
      assert samples[..k] == samples;
    }
  }

  /** Sleep is requested at a pass exactly when there has been no input for
      the inactivity time and the baseline in force (the start tick, or the
      tick after the previous request) is as old; after a request the
      baseline is the tick read once it returned, whether or not it
      succeeded, and otherwise it stays. */
  lemma SleepOnlyWhenIdle(start: int, samples: seq<Sample>, k: nat)
    requires k < |samples|
    ensures var b := Baseline(start, samples[..k]);
      Sleeps(start, samples)[k] <==>
        samples[k].nowMs - samples[k].lastInputMs >= InactivityMs && samples[k].nowMs - b >= InactivityMs
    ensures Baseline(start, samples[..k + 1])
      == if Sleeps(start, samples)[k] then samples[k].afterSleepMs else Baseline(start, samples[..k])
  {
    SleepsPrefix(start, samples, k + 1);
    var p := samples[..k + 1];
    assert p[..k] == samples[..k];
    assert Sleeps(start, samples)[k] == Sleeps(start, p)[k];
  }

  /** The first pass measures idle time from the start tick at the
      earliest, so uptime before the watcher started never counts: it
      requests sleep only when the start is the inactivity time old. */
  lemma FirstPassFromStart(start: int, samples: seq<Sample>)
    requires samples != []
    ensures Sleeps(start, samples)[0] ==> samples[0].nowMs - start >= InactivityMs
  {
    SleepOnlyWhenIdle(start, samples, 0);
    assert samples[..0] == [];
  }

  /** The module's state: the baseline global, unset until the loop starts. */
  class Watcher {
    var lastResetTick: Option<int>

    constructor ()
      ensures lastResetTick == None
    {
      lastResetTick := None;
    }

    /** `get_idle_seconds`, in milliseconds. */
    method GetIdleMs(lastInputMs: int, nowMs: int) returns (idleMs: nat)
      ensures idleMs == IdleMs(lastResetTick, lastInputMs, nowMs)
    {
      var lastInput := lastInputMs;
      if lastResetTick.Some? && lastResetTick.value > lastInput {
        lastInput := lastResetTick.value;
      }
      var idle := nowMs - lastInput;
      if idle < 0 {
        idle := 0;
      }
      idleMs := idle;
    }

    /** `main_loop` over a finite run of passes: the baseline starts at the
        current tick, and the result says at which passes sleep was
        requested. */
    method MainLoop(start: int, samples: seq<Sample>) returns (sleeps: seq<bool>)
      modifies this
      ensures lastResetTick == Some(Baseline(start, samples))
      ensures sleeps == Sleeps(start, samples)
    {
      lastResetTick := Some(start);
      sleeps := [];
      for k := 0 to |samples|
        invariant lastResetTick == Some(Baseline(start, samples[..k]))
        invariant sleeps == Sleeps(start, samples[..k])
      {
        assert samples[..k + 1][..k] == samples[..k];
        var idle := GetIdleMs(samples[k].lastInputMs, samples[k].nowMs);
        if idle >= InactivitySeconds * 1000 {
          lastResetTick := Some(samples[k].afterSleepMs);
          sleeps := sleeps + [true];
        } else {
          sleeps := sleeps + [false];
        }
      }
      assert samples[..|samples|] == samples;
    }
  }
}
