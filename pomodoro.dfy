/**
 * The `PomodoroTimer` class: the countdown state, the interval handle and the status-bar text,
 * updated in place by the commands, by the one-second interval callback and by configuration
 * changes. Each of these is proved to move the countdown state exactly as the corresponding
 * transition of module Session does. The commands, the callback and the configuration listener
 * also keep the class invariant `Valid`: an interval is registered exactly while the timer runs,
 * and the status bar shows the current state. `Dispose` ends the timer's life: it clears the
 * interval but, like the code, leaves the handle field set, so `Valid` no longer holds after it.
 */
module Pomodoro {
  import opened Wrappers
  import opened Session
  import StatusBar

  /** Requests the timer makes of the editor host, in the order it makes them. */
  datatype Effect =
    | Flash(times: nat)                     // flashStatusBar(times)
    | Sound                                 // the "Timer Complete" progress that plays the audio cue
    | Notify(message: string, millis: nat)  // a notification shown for `millis` milliseconds

  /** What the interval callback requests when a session runs out, given the state it switched to. */
  function ExpiryEffects(c: Clock, s: Settings): (effects: seq<Effect>)
    ensures |effects| == if SoundEnabled(s) then 3 else 2
    ensures effects[0] == Flash(3)
    ensures effects[|effects| - 1] == Notify(ExpiryMessage(c.isBreak, LongBreakFlag(c), c.pomodoroCount), 8000)
    ensures (Sound in effects) == SoundEnabled(s)
  {
    [Flash(3)]
    + (if SoundEnabled(s) then [Sound] else [])
    + [Notify(ExpiryMessage(c.isBreak, LongBreakFlag(c), c.pomodoroCount), 8000)]
  }

  class PomodoroTimer {
    /** The current `otakPomodoro` configuration. */
    var settings: Settings
    /** Whether the class holds an interval handle (`this.timer !== undefined`). */
    var timer: bool
    var timeRemaining: int
    var isBreak: bool
    var isPaused: bool
    var pomodoroCount: nat
    /** The status-bar item's text. */
    var text: string
    /** The host requests made so far. */
    var effects: seq<Effect>
    /** How many of the timer's one-second intervals the host is running. */
    ghost var liveIntervals: nat

    /** The countdown state held in the fields. */
    function State(): Clock
      reads this
    {
      Clock(timeRemaining, isBreak, isPaused, pomodoroCount)
    }

    /**
     * The interval part of the invariant: an interval is registered (exactly one, and its handle
     * held) exactly while the timer runs, and the remaining time is not negative.
     */
    ghost predicate IntervalHeld()
      reads this
    {
      (timer <==> !isPaused)
      && liveIntervals == (if timer then 1 else 0)
      && timeRemaining >= 0
    }

    /** The class invariant: the interval part, and the status bar shows the state. */
    ghost predicate Valid()
      reads this
    {
      IntervalHeld()
      && text == StatusBar.Text(timeRemaining, isBreak, isPaused, pomodoroCount)
    }

    /** A new timer: paused at the start of the first focus session, no interval running. */
    constructor(settings: Settings)
      ensures this.settings == settings && State() == Initial(settings)
      ensures Valid() && !timer && liveIntervals == 0 && effects == []
    {
      this.settings := settings;
      timer := false;
      timeRemaining := WorkTime(settings);
      isBreak := false;
      isPaused := true;
      pomodoroCount := 0;
      effects := [];
      liveIntervals := 0;
      new;
      UpdateStatusBar();
    }

    /**
     * The `onDidChangeConfiguration` listener: when the change concerns `otakPomodoro`, the new
     * configuration is taken, and a paused timer restarts its session at the new length.
     */
    method OnDidChangeConfiguration(affectsPomodoro: bool, latest: Settings)
      requires Valid()
      modifies this
      ensures Valid()
      ensures settings == (if affectsPomodoro then latest else old(settings))
      ensures State() == (if affectsPomodoro then Resynced(old(State()), latest) else old(State()))
      ensures timer == old(timer) && liveIntervals == old(liveIntervals) && effects == old(effects)
    {
      if affectsPomodoro {
        settings := latest;
        if isPaused {
          timeRemaining := if isBreak then BreakTime(settings, pomodoroCount) else WorkTime(settings);
        }
        UpdateStatusBar();
      }
    }

    /** `updateStatusBar`: the text shows icon, mode, remaining time and the number of the current Pomodoro. */
    method UpdateStatusBar()
      requires timeRemaining >= 0
      modifies this`text
      ensures text == StatusBar.Text(timeRemaining, isBreak, isPaused, pomodoroCount)
    {
      text := StatusBar.Text(timeRemaining, isBreak, isPaused, pomodoroCount);
    }

    /** `toggleTimer`: start a paused timer, pause a running one. */
    method ToggleTimer()
      requires Valid()
      modifies this
      ensures Valid()
      ensures State() == Toggled(old(State()))
      ensures settings == old(settings) && effects == old(effects)
    {
      if isPaused {
        StartTimer();
      } else {
        PauseTimer();
      }
    }

    /**
     * `startTimer`: mark the timer running, show it, and register the one-second interval. The
     * label need not be current on entry: `skipSession` switches mode just before calling it.
     */
    method StartTimer()
      requires IntervalHeld() && isPaused
      modifies this
      ensures Valid()
      ensures State() == Started(old(State()))
      ensures timer && liveIntervals == 1
      ensures settings == old(settings) && effects == old(effects)
    {
      isPaused := false;
      UpdateStatusBar();
      timer := true;
      liveIntervals := liveIntervals + 1;
    }

    /**
     * The interval callback, run once a second while the timer runs: one second off, the end of
     * the session when none is left, and the status bar brought up to date.
     */
    method Tick()
      requires Valid() && !isPaused
      modifies this
      ensures Valid()
      ensures State() == Ticked(old(State()), settings)
      ensures effects == old(effects) + (if old(timeRemaining) <= 1 then ExpiryEffects(State(), settings) else [])
      ensures settings == old(settings) && timer == old(timer) && liveIntervals == old(liveIntervals)
    {
      timeRemaining := timeRemaining - 1;
      if timeRemaining <= 0 {
        EndSession();
      }
      UpdateStatusBar();
    }

    /**
     * The end of a session inside the interval callback: the flash, the count (after a focus
     * session), the switch to the other mode, the sound and the notification.
     */
    method EndSession()
      modifies this`effects, this`pomodoroCount, this`isBreak, this`timeRemaining
      ensures State() == Switched(old(State()).(pomodoroCount := if old(isBreak) then old(pomodoroCount) else old(pomodoroCount) + 1), settings)
      ensures effects == old(effects) + ExpiryEffects(State(), settings)
    {
      effects := effects + [Flash(3)];
      if !isBreak {
        pomodoroCount := pomodoroCount + 1;
      }
      SwitchMode();
      var isLongBreak := isBreak && pomodoroCount % 4 == 0;
      PlayNotificationSound();
      var message := ExpiryMessage(isBreak, isLongBreak, pomodoroCount);
      effects := effects + [Notify(message, 8000)];
    }

    /** `playNotificationSound`: request the sound only when it is enabled (the default). */
    method PlayNotificationSound()
      modifies this`effects
      ensures effects == old(effects) + (if SoundEnabled(settings) then [Sound] else [])
    {
      if settings.soundEnabled.GetOr(true) {
        effects := effects + [Sound];
      }
    }

    /** `pauseTimer`: clear the interval if one is held, and mark the timer paused. */
    method PauseTimer()
      requires Valid()
      modifies this
      ensures Valid()
      ensures State() == Paused(old(State()))
      ensures !timer && liveIntervals == 0
      ensures settings == old(settings) && effects == old(effects)
    {
      if timer {
        liveIntervals := liveIntervals - 1;
        timer := false;
      }
      isPaused := true;
      UpdateStatusBar();
    }

    /** `reset`: pause, and go back to a fresh first focus session with no Pomodoro counted. */
    method Reset()
      requires Valid()
      modifies this
      ensures Valid()
      ensures State() == Initial(settings)
      ensures !timer && liveIntervals == 0
      ensures settings == old(settings) && effects == old(effects)
    {
      PauseTimer();
      timeRemaining := WorkTime(settings);
      isBreak := false;
      pomodoroCount := 0;
      UpdateStatusBar();
    }

    /** `switchMode`: the other mode at its full length; the count is left as it is. */
    method SwitchMode()
      modifies this`isBreak, this`timeRemaining
      ensures State() == Switched(old(State()), settings)
    {
      isBreak := !isBreak;
      timeRemaining := if isBreak then BreakTime(settings, pomodoroCount) else WorkTime(settings);
    }

    /** `skipSession`: end the current session without counting it, start the other one, and say so. */
    method SkipSession()
      requires Valid()
      modifies this
      ensures Valid()
      ensures State() == Skipped(old(State()), settings)
      ensures timer && liveIntervals == 1
      ensures effects == old(effects) + [Notify(SkipMessage(isBreak), 3000)]
      ensures settings == old(settings)
    {
      PauseTimer();
      SwitchMode();
      StartTimer();
      var message := SkipMessage(isBreak);
      effects := effects + [Notify(message, 3000)];
    }

    /**
     * `dispose`: clear the interval if one is held; no interval runs afterwards. The handle field
     * and the paused flag keep their values, as in the code, so the timer is no longer `Valid`.
     */
    method Dispose()
      requires Valid()
      modifies this
      ensures liveIntervals == 0
      ensures State() == old(State()) && timer == old(timer) && text == old(text)
      ensures settings == old(settings) && effects == old(effects)
    {
      if timer {
        liveIntervals := liveIntervals - 1;
      }
    }
  }
}
