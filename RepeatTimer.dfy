/// The repeat timer: the `mm:ss` reader, the `mm:ss` display, and the
/// countdown state that Start, Acknowledge/Restart and the one-second tick
/// update. Each tick callback carries the generation it was scheduled in,
/// and a restart moves the generation on so that older chains do nothing.
/// The window, the sound and Tk's scheduler are left out: a scheduled
/// callback is recorded by its generation, and firing one is a call of
/// `Tick`.
module RepeatTimer {
  import opened Wrappers
  import opened Strings

  // ---------------------------------------------------------------------
  // Reading a time
  // ---------------------------------------------------------------------

  /** Python's `int(t)` over ASCII: surrounding white space, an optional
      sign and at least one digit. */
  function ParseInt(t: string): Option<int> {
    var u := Strip(t);
    if |u| > 0 && (u[0] == '-' || u[0] == '+') then
      if IsDigits(u[1..]) then
        var v: int := DigitsValue(u[1..]);
        Some(if u[0] == '-' then -v else v)
      else None
    else if IsDigits(u) then Some(DigitsValue(u))
    else None
  }

  /** The colon branch of `parse_time_to_seconds`: exactly two parts, the
      minutes not negative and the seconds in 0..59. */
  function ColonSeconds(t: string): Option<int> {
    var parts := Split(t, ":");
    if |parts| != 2 then None
    else
      var m := ParseInt(parts[0]);
      var s := ParseInt(parts[1]);
      if m.None? || s.None? then None
      else if m.value < 0 || !(0 <= s.value < 60) then None
      else Some(m.value * 60 + s.value)
  }

  /** `parse_time_to_seconds`: `None` where it raises. Text without a colon
      is read as a number of minutes in floating point, which is not part of
      this model: `minutesBranch` is what that branch gives. */
  function ParseTime(txt: string, minutesBranch: Option<int>): Option<int> {
    var t := Strip(txt);
    if Contains(t, ":") then ColonSeconds(t) else minutesBranch
  }

  // ---------------------------------------------------------------------
  // Showing a time
  // ---------------------------------------------------------------------

  /** `f"{k:02d}"` for a natural number. */
  function Pad2(k: nat): (r: string)
    ensures IsDigits(r) && |r| >= 2
  {
    if k < 10 then "0" + NatToString(k) else NatToString(k)
  }

  /** `update_display`: the minutes and seconds of `max(0, seconds)`, each
      at least two digits, around a colon. */
  function Display(seconds: int): string {
    var n := if seconds < 0 then 0 else seconds;
    Pad2(n / 60) + ":" + Pad2(n % 60)
  }

  /** A leading zero does not change the value of a digit run. */
  lemma {:induction false} LeadingZero(d: string)
    requires forall i :: 0 <= i < |d| ==> IsDigit(d[i])
    ensures DigitsValue("0" + d) == DigitsValue(d)
  {
    if d != [] {
      var init := d[..|d| - 1];
      LeadingZero(init);
      assert ("0" + d)[..|"0" + d| - 1] == "0" + init;
    }
  }

  /** A text with no white space at its ends is its own strip. */
  lemma StripBare(s: string)
    requires s == [] || (!IsSpace(s[0]) && !IsSpace(s[|s| - 1]))
    ensures Strip(s) == s
  {
  }

  /** `int` reads back the padded digits. */
  lemma ParsePad2(k: nat)
    ensures ParseInt(Pad2(k)) == Some(k)
  {
    var p := Pad2(k);
    StripBare(p);
    NatToStringValue(k);
    if k < 10 {
      LeadingZero(NatToString(k));
    }
  }

  /** Neither padded part holds a colon. */
  lemma Pad2NoColon(k: nat)
    ensures !HasChar(Pad2(k), ':')
  {
    var p := Pad2(k);
    forall i | 0 <= i < |p| ensures p[i] != ':' {
      assert IsDigit(p[i]);
    }
  }

  /** Two colon-free parts joined by a colon, with no white space at the
      outer ends, are taken by the colon branch and split back into the two
      parts. */
  lemma TwoParts(a: string, b: string, minutesBranch: Option<int>)
    requires a != [] && b != [] && !IsSpace(a[0]) && !IsSpace(b[|b| - 1])
    requires !HasChar(a, ':') && !HasChar(b, ':')
    ensures ParseTime(a + ":" + b, minutesBranch) == ColonSeconds(a + ":" + b)
    ensures Split(a + ":" + b, ":") == [a, b]
  {
    var t := a + ":" + b;
    assert t == Join([a, b], ":");
    assert t[0] == a[0] && t[|t| - 1] == b[|b| - 1];
    StripBare(t);
    assert StartsAt(t, |a|, ":") by {
      assert t[|a|..|a| + 1] == ":";
    }
    SplitJoin([a, b], ":");
  }

  /** Two such parts that read as minutes and seconds in range give the
      time in seconds. */
  lemma ColonParts(a: string, b: string, m: int, sec: int, minutesBranch: Option<int>)
    requires a != [] && b != [] && !IsSpace(a[0]) && !IsSpace(b[|b| - 1])
    requires !HasChar(a, ':') && !HasChar(b, ':')
    requires ParseInt(a) == Some(m) && ParseInt(b) == Some(sec)
    ensures ParseTime(a + ":" + b, minutesBranch) == if m < 0 || !(0 <= sec < 60) then None else Some(m * 60 + sec)
  {
    TwoParts(a, b, minutesBranch);
  }

  /** The display reads back as the time it shows: `parse_time_to_seconds`
      of a displayed time is the number of seconds displayed. */
  lemma DisplayReadsBack(seconds: int, minutesBranch: Option<int>)
    ensures ParseTime(Display(seconds), minutesBranch) == Some(if seconds < 0 then 0 else seconds)
  {
    var n := if seconds < 0 then 0 else seconds;
    var q := n / 60;
    var r := n % 60;
    assert n == q * 60 + r && 0 <= r < 60;
    var a := Pad2(q);
    var b := Pad2(r);
    assert Display(seconds) == a + ":" + b;
    assert IsDigit(a[0]) && IsDigit(b[|b| - 1]);
    Pad2NoColon(q);
    Pad2NoColon(r);
    ParsePad2(q);
    ParsePad2(r);
    ColonParts(a, b, q, r, minutesBranch);
  }

  /** A text with a colon splits into two parts or more. */
  lemma {:induction false} ColonSplitsTwo(s: string, j: nat)
    requires j < |s| && s[j] == ':'
    ensures |Split(s, ":")| >= 2
  {
    assert StartsAt(s, j, ":") by {
      assert s[j..j + 1] == [s[j]];
    }
  }

  /** Two colons make three or more parts. */
  lemma TwoColonsSplitThree(s: string, i: nat, j: nat)
    requires i < j < |s| && s[i] == ':' && s[j] == ':'
    ensures |Split(s, ":")| >= 3
  {
    assert StartsAt(s, i, ":") by {
      assert s[i..i + 1] == [s[i]];
    }
    var f := Find(s, ":", 0);
    var rest := s[f + 1..];
    assert rest[j - f - 1] == s[j];
    ColonSplitsTwo(rest, j - f - 1);
  }

  /** More than one colon is refused. */
  lemma TwoColonsRejected(txt: string, i: nat, j: nat, minutesBranch: Option<int>)
    requires i < j < |Strip(txt)| && Strip(txt)[i] == ':' && Strip(txt)[j] == ':'
    ensures ParseTime(txt, minutesBranch) == None
  {
    var t := Strip(txt);
    assert StartsAt(t, i, ":") by {
      assert t[i..i + 1] == [t[i]];
    }
    TwoColonsSplitThree(t, i, j);
  }

  /** A colon-separated time is read as minutes times sixty plus seconds,
      and refused when the minutes are negative or the seconds outside
      0..59. */
  lemma ColonTime(m: int, s: int, minutesBranch: Option<int>)
    ensures var txt := IntToString(m) + ":" + IntToString(s);
      ParseTime(txt, minutesBranch) == if m < 0 || !(0 <= s < 60) then None else Some(m * 60 + s)
  {
    var a := IntToString(m);
    var b := IntToString(s);
    IntStringBare(m);
    IntStringBare(s);
    ParseIntString(m);
    ParseIntString(s);
    ColonParts(a, b, m, s, minutesBranch);
  }

  /** The text of an integer has no colon and no white space at its ends. */
  lemma IntStringBare(i: int)
    ensures var r := IntToString(i);
      !HasChar(r, ':') && !IsSpace(r[0]) && !IsSpace(r[|r| - 1])
  {
    var r := IntToString(i);
    var d := NatToString(if i < 0 then -i else i);
    forall k | 0 <= k < |r| ensures r[k] != ':' {
      if i < 0 && k > 0 {
        assert r[k] == d[k - 1];
      } else if i >= 0 {
        assert IsDigit(d[k]);
      }
    }
    assert r[|r| - 1] == d[|d| - 1];
    assert IsDigit(d[|d| - 1]);
  }

  /** `int(str(i)) == i`. */
  lemma ParseIntString(i: int)
    ensures ParseInt(IntToString(i)) == Some(i)
  {
    var n := if i < 0 then -i else i;
    var d := NatToString(n);
    var r := IntToString(i);
    NatToStringValue(n);
    StripBare(r);
    if i < 0 {
      assert r[1..] == d;
    }
  }

  // ---------------------------------------------------------------------
  // The countdown
  // ---------------------------------------------------------------------

  /** The timer's fields, with the alarm and the label text as two more:
      `afterId` is the generation of the pending tick callback, if any. */
  datatype Timer = Timer(
    secondsLeft: int, originalSeconds: int, running: bool, afterId: Option<nat>,
    tickGen: nat, alarmPlaying: bool, display: string)

  /** The fields as the constructor sets them. */
  const Initial := Timer(0, 0, false, None, 0, false, Display(0))

  /** `_schedule_tick`: show the time left and schedule the first tick. */
  function Schedule(t: Timer): Timer {
    t.(display := Display(t.secondsLeft), afterId := Some(t.tickGen))
  }

  /** What `start_timer` and `ack_restart` share once the total is known:
      alarm stopped, pending tick cancelled, both counts set to the total,
      a new generation, running, and the first tick scheduled. */
  function Restart(t: Timer, total: int): (r: Timer)
    ensures r.secondsLeft == r.originalSeconds == total && r.running
    ensures r.tickGen == t.tickGen + 1 && r.afterId == Some(r.tickGen) && !r.alarmPlaying
  {
    Schedule(t.(alarmPlaying := false, afterId := None, originalSeconds := total,
                secondsLeft := total, tickGen := t.tickGen + 1, running := true))
  }

  /** `start_timer`: nothing changes when the text does not parse. */
  function Started(t: Timer, parsed: Option<int>): Timer {
    if parsed.None? then t else Restart(t, parsed.value)
  }

  /** `ack_restart`: on a parse failure the previous total is used again if
      positive, else five minutes. */
  function AckRestarted(t: Timer, parsed: Option<int>): (r: Timer)
    ensures parsed.None? ==> r.originalSeconds > 0
    ensures parsed.None? && t.originalSeconds > 0 ==> r.originalSeconds == t.originalSeconds
    ensures parsed.None? && t.originalSeconds <= 0 ==> r.originalSeconds == 300
    ensures parsed.Some? ==> r.originalSeconds == r.secondsLeft == parsed.value
    ensures r.secondsLeft == r.originalSeconds && r.running && !r.alarmPlaying && r.tickGen == t.tickGen + 1
  {
    Restart(t, if parsed.Some? then parsed.value else if t.originalSeconds > 0 then t.originalSeconds else 300)
  }

  /** `_tick` of generation `gen`: a stale or stopped chain does nothing; at
      zero the timer stops and sounds the alarm; otherwise one second less,
      shown, and the next tick scheduled. */
  function Ticked(t: Timer, gen: nat): Timer {
    if gen != t.tickGen || !t.running then t
    else if t.secondsLeft <= 0 then t.(running := false, afterId := None, alarmPlaying := true)
    else t.(secondsLeft := t.secondsLeft - 1, display := Display(t.secondsLeft - 1), afterId := Some(gen))
  }

  /** `k` ticks of generation `gen` in a row. */
  function Ticks(t: Timer, gen: nat, k: nat): Timer {
    if k == 0 then t else Ticked(Ticks(t, gen, k - 1), gen)
  }

  /** The counts are sane: nothing left below zero or above the total, and a
      running timer has a tick pending. */
  predicate Valid(t: Timer) {
    0 <= t.secondsLeft <= t.originalSeconds && (t.running ==> t.afterId == Some(t.tickGen))
  }

  /** Starting, restarting and ticking keep the counts sane, given a total
      that is not negative (the colon branch never gives one). */
  lemma ValidKept(t: Timer, parsed: Option<int>, gen: nat)
    requires Valid(t) && (parsed.Some? ==> parsed.value >= 0)
    ensures Valid(Started(t, parsed)) && Valid(AckRestarted(t, parsed)) && Valid(Ticked(t, gen))
  {
  }

  /** While running in the current generation, each tick takes one second
      off and leaves the timer running, as long as time is left. */
  lemma {:induction false} Countdown(t: Timer, k: nat)
    requires t.running && k <= t.secondsLeft
    ensures var r := Ticks(t, t.tickGen, k);
      r.secondsLeft == t.secondsLeft - k && r.running && r.tickGen == t.tickGen
      && r.originalSeconds == t.originalSeconds && r.alarmPlaying == t.alarmPlaying
      && (k > 0 ==> r.display == Display(r.secondsLeft) && r.afterId == Some(t.tickGen))
  {
    if k > 0 {
      Countdown(t, k - 1);
    }
  }

  /** A restart with `total` seconds counts down to zero in `total` ticks
      and sounds the alarm, stopping, at the tick after. */
  lemma AlarmAfterTotal(t: Timer, total: nat)
    ensures var r := Restart(t, total);
      var z := Ticks(r, r.tickGen, total);
      z.secondsLeft == 0 && z.running && z.display == Display(0)
      && var e := Ticked(z, r.tickGen);
        !e.running && e.alarmPlaying && e.afterId == None && e.originalSeconds == total
  {
    var r := Restart(t, total);
    Countdown(r, total);
  }

  /** After a restart, a tick of any earlier generation changes nothing, so
      the chain scheduled before the restart cannot count down the new
      time. */
  lemma {:induction false} StaleChainIgnored(t: Timer, total: int, gen: nat, k: nat)
    requires gen <= t.tickGen
    ensures Ticks(Restart(t, total), gen, k) == Restart(t, total)
  {
    if k > 0 {
      StaleChainIgnored(t, total, gen, k - 1);
    }
  }

  /** The timer object. */
  class MinimalRepeatTimer {
    var secondsLeft: int
    var originalSeconds: int
    var running: bool
    var afterId: Option<nat>
    var tickGen: nat
    var alarmPlaying: bool
    var display: string

    /** The fields as one value. */
    function State(): Timer
      reads this
    {
      Timer(secondsLeft, originalSeconds, running, afterId, tickGen, alarmPlaying, display)
    }

    constructor ()
      ensures State() == Initial
    {
      secondsLeft := 0;
      originalSeconds := 0;
      running := false;
      afterId := None;
      tickGen := 0;
      alarmPlaying := false;
      display := Display(0);
    }

    method ScheduleTick()
      modifies this
      ensures State() == Schedule(old(State()))
    {
      display := Display(secondsLeft);
      afterId := Some(tickGen);
    }

    /** The steps `start_timer` and `ack_restart` share once the total is known. */
    method RestartWith(total: int)
      modifies this
      ensures State() == Restart(old(State()), total)
    {
      alarmPlaying := false;
      afterId := None;
      originalSeconds := total;
      secondsLeft := total;
      tickGen := tickGen + 1;
      running := true;
      ScheduleTick();
    }

    /** `start_timer` with the entry's text. */
    method StartTimer(txt: string, minutesBranch: Option<int>)
      modifies this
      ensures State() == Started(old(State()), ParseTime(txt, minutesBranch))
    {
      var total := ParseTime(txt, minutesBranch);
      if total.None? {
        return;
      }
      RestartWith(total.value);
    }

    /** `ack_restart` with the entry's text. */
    method AckRestart(txt: string, minutesBranch: Option<int>)
      modifies this
      ensures State() == AckRestarted(old(State()), ParseTime(txt, minutesBranch))
    {
      var parsed := ParseTime(txt, minutesBranch);
      var total := if parsed.Some? then parsed.value else if originalSeconds > 0 then originalSeconds else 300;
      RestartWith(total);
    }

    /** A tick callback of generation `gen` firing. */
    method Tick(gen: nat)
      modifies this
      ensures State() == Ticked(old(State()), gen)
    {
      if gen != tickGen || !running {
        return;
      }
      if secondsLeft <= 0 {
        running := false;
        afterId := None;
        alarmPlaying := true;
        return;
      }
      secondsLeft := secondsLeft - 1;
      display := Display(secondsLeft);
      afterId := Some(gen);
    }
  }
}
