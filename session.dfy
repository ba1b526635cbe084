/**
 * The rules of a Pomodoro session: the configured durations (with their defaults), the long-break
 * rule, the notification texts, and the countdown state as a value together with the transition
 * each timer operation makes on it. The class in module Pomodoro is proved to make exactly these
 * transitions; the lemmas here state what the transitions mean over whole sessions and cycles.
 */
module Session {
  import opened Wrappers
  import opened Numerals

  const DEFAULT_WORK_MINUTES: nat := 25
  const DEFAULT_BREAK_MINUTES: nat := 5
  const DEFAULT_LONG_BREAK_MINUTES: nat := 15

  /** Every this many completed focus sessions, the break is a long one. */
  const SESSIONS_PER_LONG_BREAK: nat := 4

  /**
   * The `otakPomodoro` configuration section: each setting is unset (`None`) or holds the user's
   * value. Durations are whole minutes.
   */
  datatype Settings = Settings(
    workTime: Option<nat>,
    breakTime: Option<nat>,
    longBreakTime: Option<nat>,
    soundEnabled: Option<bool>)

  /** A configuration with nothing set. */
  const UNSET := Settings(None, None, None, None)

  /** `getWorkTime`: the focus length in seconds. */
  function WorkTime(s: Settings): (seconds: nat)
    ensures s.workTime.None? ==> seconds == DEFAULT_WORK_MINUTES * 60
    ensures s.workTime.Some? ==> seconds == s.workTime.value * 60
  {
    s.workTime.GetOr(DEFAULT_WORK_MINUTES) * 60
  }

  /** The break after `pomodoroCount` completed focus sessions is long exactly on every 4th. */
  predicate IsLongBreak(pomodoroCount: nat) {
    pomodoroCount > 0 && pomodoroCount % SESSIONS_PER_LONG_BREAK == 0
  }

  /** `getBreakTime`: the break length in seconds, long or short according to the completed count. */
  function BreakTime(s: Settings, pomodoroCount: nat): (seconds: nat)
    ensures IsLongBreak(pomodoroCount) ==> seconds == s.longBreakTime.GetOr(DEFAULT_LONG_BREAK_MINUTES) * 60
    ensures !IsLongBreak(pomodoroCount) ==> seconds == s.breakTime.GetOr(DEFAULT_BREAK_MINUTES) * 60
  {
    if IsLongBreak(pomodoroCount) then s.longBreakTime.GetOr(DEFAULT_LONG_BREAK_MINUTES) * 60
    else s.breakTime.GetOr(DEFAULT_BREAK_MINUTES) * 60
  }

  /** The full length of a session of the given mode. */
  function SessionLength(s: Settings, isBreak: bool, pomodoroCount: nat): nat {
    if isBreak then BreakTime(s, pomodoroCount) else WorkTime(s)
  }

  /** Whether the end of a session asks for the notification sound (default: yes). */
  function SoundEnabled(s: Settings): (enabled: bool)
    ensures enabled <==> s.soundEnabled != Some(false)
  {
    s.soundEnabled.GetOr(true)
  }

  /** The number of long breaks among the breaks after focus sessions 1 to n. */
  function LongBreaksUpTo(n: nat): nat {
    if n == 0 then 0 else LongBreaksUpTo(n - 1) + (if IsLongBreak(n) then 1 else 0)
  }

  /** Exactly one break in every four is long: after n focus sessions there have been n / 4 long breaks. */
  lemma {:induction false} LongBreakEveryFourth(n: nat)
    ensures LongBreaksUpTo(n) == n / SESSIONS_PER_LONG_BREAK
  {
    if n > 0 {
      LongBreakEveryFourth(n - 1);
    }
  }

  /** The message shown when a session runs out; `isLongBreak` is the flag the tick computes. */
  function ExpiryMessage(isBreak: bool, isLongBreak: bool, pomodoroCount: nat): string {
    if isBreak then
      "Time for a " + (if isLongBreak then "long break" else "break") + "! (Pomodoro #" + ToBase(pomodoroCount, 10) + " completed)"
    else "Time to focus!"
  }

  /**
   * The expiry message starts with "Time for a " exactly when the new session is a break, and
   * announces a long break exactly when it is a break and the flag is set.
   */
  lemma ExpiryMessageAnnounces(isBreak: bool, isLongBreak: bool, pomodoroCount: nat)
    ensures ("Time for a " <= ExpiryMessage(isBreak, isLongBreak, pomodoroCount)) == isBreak
    ensures ("Time for a long break" <= ExpiryMessage(isBreak, isLongBreak, pomodoroCount)) == (isBreak && isLongBreak)
  {
    var m := ExpiryMessage(isBreak, isLongBreak, pomodoroCount);
    if isBreak {
      var kind := if isLongBreak then "long break" else "break";
      var tail := "! (Pomodoro #" + ToBase(pomodoroCount, 10) + " completed)";
      assert m == "Time for a " + kind + tail;
      BreakMessagePrefix(isLongBreak, kind, tail);
    } else {
      assert m[5] == 't';
    }
  }

  lemma BreakMessagePrefix(isLongBreak: bool, kind: string, tail: string)
    requires kind == if isLongBreak then "long break" else "break"
    ensures "Time for a " <= "Time for a " + kind + tail
    ensures ("Time for a long break" <= "Time for a " + kind + tail) == isLongBreak
  {
    var m := "Time for a " + kind + tail;
    assert m[..11] == "Time for a ";
    if isLongBreak {
      assert m[..21] == "Time for a long break";
    } else {
      assert m[11] == 'b';
    }
  }

  /** The message shown after a skip, naming the mode skipped to. */
  function SkipMessage(isBreak: bool): string {
    "Skipped to " + (if isBreak then "break" else "focus") + " session"
  }

  /** The skip message names the mode skipped to: it says "break" exactly when that mode is a break. */
  lemma SkipMessageNamesMode(isBreak: bool)
    ensures ("Skipped to break" <= SkipMessage(isBreak)) == isBreak
    ensures ("Skipped to focus" <= SkipMessage(isBreak)) == !isBreak
  {
    var m := SkipMessage(isBreak);
    if isBreak {
      assert m[..16] == "Skipped to break" && m[11] != 'f';
    } else {
      assert m[..16] == "Skipped to focus" && m[11] != 'b';
    }
  }

  /** The countdown state of the timer: the class's fields apart from configuration and host handles. */
  datatype Clock = Clock(timeRemaining: int, isBreak: bool, isPaused: bool, pomodoroCount: nat)

  /** The state of a freshly constructed timer, and the state `reset` returns to. */
  function Initial(s: Settings): (c: Clock)
    ensures c.isPaused && !c.isBreak && c.pomodoroCount == 0 && c.timeRemaining == WorkTime(s)
  {
    Clock(WorkTime(s), false, true, 0)
  }

  /** `startTimer` as far as the countdown state goes. */
  function Started(c: Clock): (r: Clock)
    ensures !r.isPaused && r.(isPaused := c.isPaused) == c
  {
    c.(isPaused := false)
  }

  /** `pauseTimer` as far as the countdown state goes. */
  function Paused(c: Clock): (r: Clock)
    ensures r.isPaused && r.(isPaused := c.isPaused) == c
  {
    c.(isPaused := true)
  }

  /** `toggleTimer`: start when paused, pause when running. */
  function Toggled(c: Clock): (r: Clock)
    ensures r.isPaused == !c.isPaused
    ensures r.(isPaused := c.isPaused) == c
  {
    if c.isPaused then Started(c) else Paused(c)
  }

  /** `switchMode`: the other mode, at its full length for the current count. */
  function Switched(c: Clock, s: Settings): (r: Clock)
    ensures r.isBreak == !c.isBreak && r.isPaused == c.isPaused && r.pomodoroCount == c.pomodoroCount
    ensures r.timeRemaining == SessionLength(s, r.isBreak, r.pomodoroCount)
  {
    var isBreak := !c.isBreak;
    c.(isBreak := isBreak, timeRemaining := SessionLength(s, isBreak, c.pomodoroCount))
  }

  /** One second of a running countdown: the interval callback's effect on the countdown state. */
  function Ticked(c: Clock, s: Settings): (r: Clock)
    ensures r.timeRemaining >= 0 && r.isPaused == c.isPaused
  {
    var t := c.timeRemaining - 1;
    if t > 0 then c.(timeRemaining := t)
    else
      var count := if c.isBreak then c.pomodoroCount else c.pomodoroCount + 1;
      Switched(c.(timeRemaining := t, pomodoroCount := count), s)
  }

  /**
   * `skipSession`: pause, switch mode and start again. The skipped session is not counted, the
   * other mode starts at its full length, and the timer ends up running whatever it was before.
   */
  function Skipped(c: Clock, s: Settings): (r: Clock)
    ensures r.isBreak == !c.isBreak && r.pomodoroCount == c.pomodoroCount && !r.isPaused
    ensures r.timeRemaining == SessionLength(s, r.isBreak, r.pomodoroCount)
  {
    Started(Switched(Paused(c), s))
  }

  /** Two skips in a row return to the original mode, at its full length and running. */
  lemma SkipTwice(c: Clock, s: Settings)
    ensures Skipped(Skipped(c, s), s) == Started(c.(timeRemaining := SessionLength(s, c.isBreak, c.pomodoroCount)))
  {
  }

  /** Two mode switches in a row return to the original mode at its full length. */
  lemma SwitchTwice(c: Clock, s: Settings)
    ensures Switched(Switched(c, s), s) == c.(timeRemaining := SessionLength(s, c.isBreak, c.pomodoroCount))
  {
  }

  /**
   * The configuration-change handler: a paused timer takes the new length of its session; a
   * running one is left alone. Nothing but the remaining time ever changes.
   */
  function Resynced(c: Clock, s: Settings): (r: Clock)
    ensures c.isPaused ==> r.timeRemaining == SessionLength(s, c.isBreak, c.pomodoroCount)
    ensures !c.isPaused ==> r == c
    ensures r.(timeRemaining := c.timeRemaining) == c
  {
    if c.isPaused then c.(timeRemaining := SessionLength(s, c.isBreak, c.pomodoroCount)) else c
  }

  /** Applying the same configuration twice is applying it once. */
  lemma ResyncIdempotent(c: Clock, s: Settings)
    ensures Resynced(Resynced(c, s), s) == Resynced(c, s)
  {
  }

  /** The state after n ticks. */
  function Ticks(c: Clock, s: Settings, n: nat): Clock {
    if n == 0 then c else Ticked(Ticks(c, s, n - 1), s)
  }

  /** The state a session ends in: the other mode at full length, the count one higher if the session was a focus session. */
  function Expired(c: Clock, s: Settings): (r: Clock)
    ensures r.isBreak == !c.isBreak && r.isPaused == c.isPaused
    ensures r.pomodoroCount == if c.isBreak then c.pomodoroCount else c.pomodoroCount + 1
    ensures r.timeRemaining == SessionLength(s, r.isBreak, r.pomodoroCount)
  {
    var count := if c.isBreak then c.pomodoroCount else c.pomodoroCount + 1;
    Clock(SessionLength(s, !c.isBreak, count), !c.isBreak, c.isPaused, count)
  }

  /** A tick that does not reach zero takes exactly one second off and changes nothing else. */
  lemma TickCountsDown(c: Clock, s: Settings)
    requires c.timeRemaining > 1
    ensures Ticked(c, s) == c.(timeRemaining := c.timeRemaining - 1)
  {
  }

  /** A tick that reaches zero ends the session: the mode flips, the count grows for a focus session only, the new session is full length, and the countdown keeps running. */
  lemma TickExpires(c: Clock, s: Settings)
    requires c.timeRemaining <= 1
    ensures Ticked(c, s) == Expired(c, s)
  {
  }

  /** Until the last second, n ticks take n seconds off and change nothing else. */
  lemma {:induction false} TicksCountDown(c: Clock, s: Settings, n: nat)
    requires n < c.timeRemaining
    ensures Ticks(c, s, n) == c.(timeRemaining := c.timeRemaining - n)
  {
    if n > 0 {
      TicksCountDown(c, s, n - 1);
    }
  }

  /** A session with t seconds left ends after exactly t ticks. */
  lemma SessionRunsOut(c: Clock, s: Settings)
    requires c.timeRemaining >= 1
    ensures Ticks(c, s, c.timeRemaining) == Expired(c, s)
  {
    TicksCountDown(c, s, c.timeRemaining - 1);
  }

  /** Ticking m + n times is ticking m times and then n times. */
  lemma {:induction false} TicksAdd(c: Clock, s: Settings, m: nat, n: nat)
    ensures Ticks(c, s, m + n) == Ticks(Ticks(c, s, m), s, n)
  {
    if n > 0 {
      TicksAdd(c, s, m, n - 1);
    }
  }

  /**
   * A whole Pomodoro: from the start of a focus session, one focus session and the break after it
   * bring the timer back to the start of a focus session with one more completed.
   */
  lemma PomodoroCycle(c: Clock, s: Settings)
    requires !c.isBreak && c.timeRemaining == WorkTime(s) >= 1
    requires BreakTime(s, c.pomodoroCount + 1) >= 1
    ensures Ticks(c, s, WorkTime(s) + BreakTime(s, c.pomodoroCount + 1)) == c.(pomodoroCount := c.pomodoroCount + 1)
  {
    var afterFocus := Ticks(c, s, WorkTime(s));
    SessionRunsOut(c, s);
    assert afterFocus == Clock(BreakTime(s, c.pomodoroCount + 1), true, c.isPaused, c.pomodoroCount + 1);
    SessionRunsOut(afterFocus, s);
    TicksAdd(c, s, WorkTime(s), BreakTime(s, c.pomodoroCount + 1));
  }

  /** With the default settings, 1500 ticks after the first start the timer is in a 5-minute break with one Pomodoro done. */
  lemma FirstPomodoroWithDefaults()
    ensures Ticks(Started(Initial(UNSET)), UNSET, 1500) == Clock(300, true, false, 1)
  {
    SessionRunsOut(Started(Initial(UNSET)), UNSET);
  }

  /** With the default settings, the break after the fourth focus session is the 15-minute long break. */
  lemma FourthBreakIsLongWithDefaults()
    ensures Ticks(Started(Initial(UNSET)), UNSET, 3 * (1500 + 300) + 1500) == Clock(900, true, false, 4)
  {
    var c0 := Clock(1500, false, false, 0);
    assert Started(Initial(UNSET)) == c0;
    DefaultCycle(0);
    DefaultCycle(1);
    DefaultCycle(2);
    SessionRunsOut(Clock(1500, false, false, 3), UNSET);
    TicksThen(c0, UNSET, 1800, 1800, Clock(1500, false, false, 1), Clock(1500, false, false, 2));
    TicksThen(c0, UNSET, 3600, 1800, Clock(1500, false, false, 2), Clock(1500, false, false, 3));
    TicksThen(c0, UNSET, 5400, 1500, Clock(1500, false, false, 3), Clock(900, true, false, 4));
  }

  /** With the default settings, each of the first three Pomodoros (a short break) takes 1800 ticks. */
  lemma DefaultCycle(k: nat)
    requires k < 3
    ensures Ticks(Clock(1500, false, false, k), UNSET, 1800) == Clock(1500, false, false, k + 1)
  {
    PomodoroCycle(Clock(1500, false, false, k), UNSET);
  }

  /** Composing two runs of ticks through the state between them. */
  lemma TicksThen(c: Clock, s: Settings, m: nat, n: nat, mid: Clock, end: Clock)
    requires Ticks(c, s, m) == mid && Ticks(mid, s, n) == end
    ensures Ticks(c, s, m + n) == end
  {
    TicksAdd(c, s, m, n);
  }

  /** Toggling twice with no tick in between restores the state. */
  lemma ToggleTwice(c: Clock)
    ensures Toggled(Toggled(c)) == c
  {
  }

  /** The long-break flag the tick computes after switching: a break, and a count divisible by four. */
  function LongBreakFlag(c: Clock): bool {
    c.isBreak && c.pomodoroCount % SESSIONS_PER_LONG_BREAK == 0
  }

  /**
   * On expiry, the tick's flag agrees with the long-break rule that chose the new session's
   * length: the message announces a long break exactly when the break is the long one.
   */
  lemma ExpiryFlagIsLongBreak(c: Clock, s: Settings)
    requires c.timeRemaining <= 1
    ensures LongBreakFlag(Ticked(c, s)) == (Ticked(c, s).isBreak && IsLongBreak(Ticked(c, s).pomodoroCount))
    ensures LongBreakFlag(Ticked(c, s)) ==> Ticked(c, s).timeRemaining == s.longBreakTime.GetOr(DEFAULT_LONG_BREAK_MINUTES) * 60
  {
  }
}
