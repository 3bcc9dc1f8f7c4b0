/// The screen power controller: after a stretch without input the monitor
/// is switched off; it comes back on at the first input, or by itself (with
/// a faked input) once it has been off for the off duration. Each poll
/// brings the idle time and the tick count, both in milliseconds; the
/// Windows calls that read them and switch the monitor are left out.
module MonitorIdle {
  import opened Wrappers

  const IdleBeforeOffMinutes: int := 30
  const OffDurationMinutes: int := 60

  /** The two thresholds in milliseconds. */
  const IdleBeforeOffMs: int := IdleBeforeOffMinutes * 60 * 1000
  const OffDurationMs: int := OffDurationMinutes * 60 * 1000

  /** What a poll does to the monitor. */
  datatype Action = Nothing | TurnOff | TurnOn | TurnOnWithFakeInput

  /** The loop's three variables. */
  datatype Control = Control(monitorIsOff: bool, offStartTick: Option<int>, idleAtOffMs: Option<int>)

  /** The tick and the idle time at switch-off are recorded exactly while
      the monitor is off. */
  predicate Valid(c: Control) {
    (c.offStartTick.Some? <==> c.monitorIsOff) && (c.idleAtOffMs.Some? <==> c.monitorIsOff)
  }

  /** The variables before the first poll. */
  const Initial := Control(false, None, None)

  /** One pass of the loop: the new variables and what was done to the
      monitor. The monitor changes state exactly when an action is taken.
      While on, it is switched off exactly when the idle time has reached
      the threshold, and the tick and idle time are recorded; while off,
      an idle time below the recorded one (new input) switches it on and
      clears the records, and otherwise it is switched on with a faked
      input exactly when it has been off for the off duration. */
  function Poll(c: Control, idleMs: int, nowTick: int): (r: (Control, Action))
    requires Valid(c)
    ensures Valid(r.0)
    ensures r.0.monitorIsOff != c.monitorIsOff <==> r.1 != Nothing
    ensures !c.monitorIsOff ==> (r.1 == TurnOff <==> idleMs >= IdleBeforeOffMs)
    ensures r.1 == TurnOff ==> r.0 == Control(true, Some(nowTick), Some(idleMs))
    ensures c.monitorIsOff && idleMs < c.idleAtOffMs.value ==> r == (Control(false, None, None), TurnOn)
    ensures c.monitorIsOff && idleMs >= c.idleAtOffMs.value ==>
      (r.1 == TurnOnWithFakeInput <==> nowTick - c.offStartTick.value >= OffDurationMs)
    ensures r.1 == TurnOnWithFakeInput ==> r.0 == Control(false, None, None)
  {
    if !c.monitorIsOff then
      if idleMs >= IdleBeforeOffMs then (Control(true, Some(nowTick), Some(idleMs)), TurnOff)
      else (c, Nothing)
    else if idleMs < c.idleAtOffMs.value then (Control(false, None, None), TurnOn)
    else if nowTick - c.offStartTick.value >= OffDurationMs then (Control(false, None, None), TurnOnWithFakeInput)
    else (c, Nothing)
  }

  /** The variables after a run of polls, each an (idle ms, tick) pair, and
      the actions taken, in order. */
  function Trace(c: Control, polls: seq<(int, int)>): (r: (Control, seq<Action>))
    requires Valid(c)
    ensures Valid(r.0) && |r.1| == |polls|
  {
    if polls == [] then (c, [])
    else
      var t := Trace(c, polls[..|polls| - 1]);
      var p := polls[|polls| - 1];
      var n := Poll(t.0, p.0, p.1);
      (n.0, t.1 + [n.1])
  }

  /** The `while True` loop of `main`, over a finite run of polls. */
  method ControlLoop(polls: seq<(int, int)>) returns (actions: seq<Action>)
    ensures actions == Trace(Initial, polls).1
  {
    var idleBeforeOffMs := IdleBeforeOffMinutes * 60 * 1000;
    var offDurationMs := OffDurationMinutes * 60 * 1000;
    var monitorIsOff := false;
    var offStartTick: Option<int> := None;
    var idleAtOffMs: Option<int> := None;
    actions := [];
    for k := 0 to |polls|
      invariant (Control(monitorIsOff, offStartTick, idleAtOffMs), actions) == Trace(Initial, polls[..k])
    {
      assert polls[..k + 1][..k] == polls[..k];
      var idleMs := polls[k].0;
      var nowTick := polls[k].1;
      var action := Nothing;
      if !monitorIsOff {
        if idleMs >= idleBeforeOffMs {
          action := TurnOff;
          monitorIsOff := true;
          offStartTick := Some(nowTick);
          idleAtOffMs := Some(idleMs);
        }
      } else {
        if idleMs < idleAtOffMs.value {
          action := TurnOn;
          monitorIsOff := false;
          offStartTick := None;
          idleAtOffMs := None;
        } else {
          var elapsedOffMs := nowTick - offStartTick.value;
          if elapsedOffMs >= offDurationMs {
            action := TurnOnWithFakeInput;
            monitorIsOff := false;
            offStartTick := None;
            idleAtOffMs := None;
          }
        }
      }
      actions := actions + [action];
    }
    assert polls[..|polls|] == polls;
  }

  /** A monitor that is off at the end of a run was switched off by one of
      its polls, at that poll's tick and idle time, and only after at least
      `IdleBeforeOffMs` without input; or it was off from the start and is
      still in the same off period. */
  lemma {:induction false} OffOnlyAfterIdle(c: Control, polls: seq<(int, int)>)
    requires Valid(c)
    ensures var f := Trace(c, polls).0;
      f.monitorIsOff ==>
        (exists k :: 0 <= k < |polls| && Trace(c, polls[..k + 1]).1[k] == TurnOff
           && f.offStartTick == Some(polls[k].1) && f.idleAtOffMs == Some(polls[k].0)
           && polls[k].0 >= IdleBeforeOffMs)
        || f == c
  {
    if polls != [] {
      var init := polls[..|polls| - 1];
      var t := Trace(c, init);
      var p := polls[|polls| - 1];
      var f := Trace(c, polls).0;
      assert polls[..|polls|] == polls;
      if f.monitorIsOff && !t.0.monitorIsOff {
        assert Trace(c, polls[..|init| + 1]).1[|init|] == TurnOff;
      } else if f.monitorIsOff {
        assert f == t.0;
        OffOnlyAfterIdle(c, init);
        if t.0 != c {
          var k :| 0 <= k < |init| && Trace(c, init[..k + 1]).1[k] == TurnOff
            && t.0.offStartTick == Some(init[k].1) && t.0.idleAtOffMs == Some(init[k].0)
            && init[k].0 >= IdleBeforeOffMs;
          assert init[..k + 1] == polls[..k + 1];
        }
      }
    }
  }

  /** A monitor still off after a poll was polled before its off duration
      ran out: any poll at or past `offStartTick + OffDurationMs` switches it
      on, with or without input. */
  lemma OffWithinDuration(c: Control, polls: seq<(int, int)>)
    requires Valid(c) && polls != []
    ensures var f := Trace(c, polls).0;
      f.monitorIsOff ==> polls[|polls| - 1].1 - f.offStartTick.value < OffDurationMs
  {
    var t := Trace(c, polls[..|polls| - 1]);
    var p := polls[|polls| - 1];
    assert Trace(c, polls).0 == Poll(t.0, p.0, p.1).0;
  }

  /** The actions that switch the monitor. */
  function Switches(actions: seq<Action>): seq<Action> {
    if actions == [] then []
    else
      var a := actions[|actions| - 1];
      Switches(actions[..|actions| - 1]) + (if a != Nothing then [a] else [])
  }

  /** From the start, switching off and switching on alternate, beginning
      with a switch-off: the monitor is never switched off twice without
      being switched on in between, nor on twice. The monitor is off at the
      end exactly after an odd number of switches. */
  lemma {:induction false} SwitchesAlternate(polls: seq<(int, int)>)
    ensures var t := Trace(Initial, polls);
      (forall k :: 0 <= k < |Switches(t.1)| ==> (Switches(t.1)[k] == TurnOff <==> k % 2 == 0))
      && (t.0.monitorIsOff <==> |Switches(t.1)| % 2 == 1)
  {
    if polls != [] {
      var init := polls[..|polls| - 1];
      SwitchesAlternate(init);
      var t := Trace(Initial, init);
      var p := polls[|polls| - 1];
      var n := Poll(t.0, p.0, p.1);
      assert Trace(Initial, polls).1 == t.1 + [n.1];
      assert (t.1 + [n.1])[..|t.1|] == t.1;
      if n.1 == Nothing {
        assert Switches(t.1 + [n.1]) == Switches(t.1) + [];
      }
    }
  }
}
