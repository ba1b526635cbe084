# otak-pomodoro: a verified model of the Pomodoro timer

otak-pomodoro is an editor extension that keeps a Pomodoro timer in the status bar. The timer
counts down a focus session, then a break, then focus again. Every fourth break is a long one.
It counts the completed focus sessions, shows `<icon> Focus|Break MM:SS #n` in the status bar,
and asks the editor for a flash, a sound and a notification whenever a session runs out. The
user can toggle (start or pause), skip to the other session, or reset. A change to the
`otakPomodoro` settings resyncs the remaining time of a paused timer. The extension also has
two small colour-string helpers, `hexToRgb` and `rgbToHex`.

The model is split into these modules:

- `Wrappers` (wrappers.dfy): `Option`, which stands for `null`/`undefined` and for
  `config.get(key, default)`.
- `Numerals` (numerals.dfy): the JavaScript built-ins the extension relies on, for the two radices
  it uses (10 and 16). `n.toString(base)` is `ToBase`, `parseInt(s, base)` on a digit string is
  `FromBase`, and `padStart` is `PadStart`.
- `Colour` (colour.dfy): `hexToRgb` and `rgbToHex`, with both round trips proved.
- `StatusBar` (status_bar.dfy): the status-bar label, plus a reader for it. The reader recovers
  the state from the label, so the label shows the whole countdown state: time, mode, paused or
  running, and count.
- `Session` (session.dfy): the settings with their defaults, and the session lengths with the
  long-break rule. It holds the countdown state as a value (`Clock`) and the transition each
  operation makes on it (`Ticked`, `Toggled`, `Skipped`, `Resynced`, ...). The lemmas are about
  whole sessions and cycles.
- `Pomodoro` (pomodoro.dfy): the `PomodoroTimer` class. Its fields are updated in place by
  methods named after the class's methods. The interval callback that `startTimer` registers is
  the method `Tick` (src/extension.ts:233-259), and the callback's expiry branch
  (src/extension.ts:237-256) is the method `EndSession`. Each method is proved to move the
  countdown state exactly as the matching `Session` transition does.

  The class invariant `Valid` says:
  - an interval is registered, and its handle held, exactly while the timer is not paused;
  - at most one interval is registered;
  - the remaining time is not negative;
  - the status-bar text is the label of the current state.

  The constructor, the commands `ToggleTimer`, `SkipSession` and `Reset`, `PauseTimer`,
  `StartTimer`, `Tick` and the configuration listener all establish `Valid`. `StartTimer` needs
  only the interval part on entry, because `skipSession` switches mode just before calling it.
  `Dispose` does not keep `Valid`: it clears the interval but leaves the handle field and the
  paused flag as they were. The private steps `UpdateStatusBar`, `SwitchMode`, `EndSession` and
  `PlayNotificationSound` are stated by the fields they change, and the callers restore `Valid`.

  Requests to the editor (flash, sound, notifications) are appended to the `effects` field, in
  the order the code makes them.

## Model

| member | source | states |
|---|---|---|
| Numerals.ToBase | src/extension.ts:25 | `toString` of a number writes at least one digit, and exactly one when the number is below the radix. |
| Numerals.FromBase | src/extension.ts:14-16 | `parseInt` on a string of digits, read most significant digit first. `FromToBase` proves it reads back what `toString` writes. |
| Numerals.FromToBase | src/extension.ts:14-16 | `parseInt` reads back the number that `toString` wrote, in the same radix. |
| Numerals.FromBaseLeadingZero | src/extension.ts:25 | A `0` put in front by `padStart` leaves the value read by `parseInt` unchanged. |
| Numerals.TwoDigits | src/extension.ts:14-16 | A two-digit field reads as high digit times radix plus low digit, so it is below radix squared. |
| Numerals.PadStart | src/extension.ts:25 | The result of `padStart` is exactly the given width, or the string's own length when that is longer. |
| Numerals.PadStartIs | src/extension.ts:25 | The result of `padStart` ends with the string itself, and every character in front of it is the fill character. |
| Numerals.DigitChar | src/extension.ts:25 | The digit written for a value is a lower-case hex digit that reads back as the same value. |
| Colour.StripHash | src/extension.ts:7 | A string that starts with `#` loses exactly that one `#`. Any other string is left unchanged. |
| Colour.ExpandShorthand | src/extension.ts:8-10 | A 3-character string becomes 6 characters, each of its characters written twice in order. Any other length is left unchanged. |
| Colour.Component | src/extension.ts:14-16 | One component is the value of its two hex digits, below 256. |
| Colour.HexToRgb | src/extension.ts:6-18 | The result is `null` exactly when the string is not 6 characters long after stripping and expanding; otherwise each component is in 0..255. |
| Colour.ComponentToHex | src/extension.ts:25 | One component is written as at least two characters. `ComponentToHexByte` proves a value in 0..255 takes exactly two lower-case digits. |
| Colour.RgbToHex | src/extension.ts:23-27 | The result starts with `#` and is at least 7 characters long. |
| Colour.ComponentToHexByte | src/extension.ts:25 | A component in 0..255 is written as exactly two lower-case digits, high digit first. |
| Colour.HexToRgbOfRgbToHex | src/extension.ts:6-27 | For components in 0..255, `hexToRgb(rgbToHex(r, g, b))` is `{r, g, b}`. |
| Colour.RgbToHexOfHexToRgb | src/extension.ts:6-27 | A lower-case `#rrggbb` string is parsed, and writing the parsed components back gives the same string. |
| Colour.ShorthandMeansDoubled | src/extension.ts:8-10 | `#abc` gives the same colour as `#aabbcc`. |
| Colour.SameNormalised | src/extension.ts:7-18 | Two strings that are the same after stripping and expanding give the same colour. |
| StatusBar.Pad2 | src/extension.ts:203-204 | `n.toString().padStart(2, '0')`. `Pad2Reads` proves what it writes. |
| StatusBar.TimeString | src/extension.ts:202-204 | The `MM:SS` field: whole minutes, then the seconds left over. `TimeStringReads` proves it reads back as the remaining time. |
| StatusBar.Text | src/extension.ts:201-208 | The status-bar label: icon, mode, time and `#` with the completed count plus one. `TextReads` and `TextInjective` prove it shows the whole state. |
| StatusBar.Pad2Reads | src/extension.ts:203-204 | A padded field is at least two digits, exactly two below 100, and reads back as its number. |
| StatusBar.TimeStringReads | src/extension.ts:202-204 | The `MM:SS` field reads back as the remaining seconds (minutes × 60 + seconds), for any number of minutes. |
| StatusBar.TimeStringFields | src/extension.ts:203-204 | The seconds field is two digits below 60, and the time field contains no space. |
| StatusBar.TextReads | src/extension.ts:201-208 | Reading the label back gives the icon's paused flag, the mode, the remaining time and, from `#n`, the completed count n − 1. |
| StatusBar.TextInjective | src/extension.ts:201-208 | Two different states never show the same label. |
| Session.WorkTime | src/extension.ts:190-192 | The focus length is the configured minutes × 60, or 25 × 60 when unset. |
| Session.BreakTime | src/extension.ts:194-199 | The break is the long-break minutes × 60 (default 15) when the count is positive and divisible by 4, and the break minutes × 60 (default 5) otherwise. |
| Session.IsLongBreak | src/extension.ts:195 | A break is long when the completed count is positive and divisible by 4. `LongBreakEveryFourth` counts how often that happens. |
| Session.SessionLength | src/extension.ts:183 | The full length of the current mode: the break time in a break, the work time otherwise. |
| Session.SoundEnabled | src/extension.ts:263 | The sound is enabled unless the setting is explicitly `false`. |
| Session.LongBreakEveryFourth | src/extension.ts:195 | Over the breaks after focus sessions 1..n, exactly n / 4 are long. |
| Session.ExpiryMessage | src/extension.ts:248-250 | The expiry notification's text. |
| Session.ExpiryMessageAnnounces | src/extension.ts:248-250 | The message starts with "Time for a " exactly in a break, and with "Time for a long break" exactly when the break is long. |
| Session.SkipMessage | src/extension.ts:306 | The skip notification's text. |
| Session.SkipMessageNamesMode | src/extension.ts:306 | The message says "Skipped to break" exactly when the new mode is a break, and "Skipped to focus" exactly when it is not. |
| Session.Initial | src/extension.ts:159-170 | A new timer is paused, in focus mode, with count 0 and the full work time. |
| Session.Started | src/extension.ts:230 | Starting leaves the timer running and changes nothing else in the countdown state. |
| Session.Paused | src/extension.ts:285 | Pausing leaves the timer paused and changes nothing else in the countdown state. |
| Session.Toggled | src/extension.ts:221-227 | Toggling flips the paused flag and changes nothing else. |
| Session.ToggleTwice | src/extension.ts:221-227 | Toggling twice restores the state. |
| Session.Switched | src/extension.ts:297-300 | Switching flips the mode and sets the full length of the new mode. It keeps the count and the paused flag. |
| Session.SwitchTwice | src/extension.ts:297-300 | Switching twice returns to the same mode at its full length. |
| Session.Ticked | src/extension.ts:234-258 | A tick never leaves negative remaining time and never pauses or starts the timer. |
| Session.TickCountsDown | src/extension.ts:234-236 | A tick with more than one second left takes exactly one second off and changes nothing else. |
| Session.TickExpires | src/extension.ts:234-244 | A tick on the last second ends the session. The count grows only after focus, the mode flips, and the new session starts full length. The timer keeps running. |
| Session.Expired | src/extension.ts:239-244 | The state after expiry has the other mode, the count incremented only after focus, and the full length of the new session. |
| Session.LongBreakFlag | src/extension.ts:244 | The long-break flag the callback computes after switching mode: in a break, with the count divisible by 4. |
| Session.ExpiryFlagIsLongBreak | src/extension.ts:243-252 | The message's long-break flag (`isBreak && count % 4 == 0`) holds exactly when the new break is long. When it holds, the break is the long-break length. |
| Session.TicksCountDown | src/extension.ts:233-236 | n ticks before the last second take exactly n seconds off. |
| Session.SessionRunsOut | src/extension.ts:233-244 | A session with t seconds left ends after exactly t ticks. |
| Session.TicksAdd | src/extension.ts:233 | m + n ticks are m ticks followed by n ticks. |
| Session.PomodoroCycle | src/extension.ts:233-258 | One focus session plus the following break returns to the start of a focus session, with one more completed. |
| Session.FirstPomodoroWithDefaults | src/extension.ts:190-199 | With defaults, 1500 ticks after the first start the timer is in a running 300-second break with count 1. |
| Session.FourthBreakIsLongWithDefaults | src/extension.ts:190-199 | With defaults, the break after the fourth focus session is the 900-second long break. |
| Session.Skipped | src/extension.ts:302-307 | A skip flips the mode, keeps the count, sets the new mode's full length, and always leaves the timer running. |
| Session.SkipTwice | src/extension.ts:302-307 | Two skips return to the original mode at its full length, running. |
| Session.Resynced | src/extension.ts:179-186 | A configuration change resets the remaining time to the new length only while paused. A running countdown is unchanged, and nothing but the remaining time ever changes. |
| Session.ResyncIdempotent | src/extension.ts:179-186 | Applying the same configuration twice is the same as applying it once. |
| Pomodoro.ExpiryEffects | src/extension.ts:238-255 | On expiry the callback asks for a 3-times flash first and an 8-second expiry notification last. The sound comes between them exactly when it is enabled. |
| Pomodoro.PomodoroTimer.constructor | src/extension.ts:159-171 | The new timer is in the initial state, holds no interval and shows its label. |
| Pomodoro.PomodoroTimer.OnDidChangeConfiguration | src/extension.ts:179-186 | The new settings are taken only when the change concerns `otakPomodoro`. Then the state becomes `Resynced`. The interval is untouched. |
| Pomodoro.PomodoroTimer.UpdateStatusBar | src/extension.ts:201-208 | The text becomes the label of the current state. |
| Pomodoro.PomodoroTimer.ToggleTimer | src/extension.ts:221-227 | The state becomes `Toggled`, and the invariant is kept. |
| Pomodoro.PomodoroTimer.StartTimer | src/extension.ts:229-233 | The timer is running and exactly one interval is registered. |
| Pomodoro.PomodoroTimer.Tick | src/extension.ts:233-259 | The state becomes `Ticked`. On expiry the flash, the sound (if enabled) and an 8-second expiry notification are requested, in that order. The interval stays registered. |
| Pomodoro.PomodoroTimer.EndSession | src/extension.ts:237-256 | The count grows after focus, the mode switches, and the expiry requests are appended. |
| Pomodoro.PomodoroTimer.PlayNotificationSound | src/extension.ts:262-278 | The sound is requested exactly when sound is enabled, which is the default. |
| Pomodoro.PomodoroTimer.PauseTimer | src/extension.ts:280-287 | The timer is paused, and no interval is registered or held. |
| Pomodoro.PomodoroTimer.Reset | src/extension.ts:289-295 | The timer returns to the initial state with no interval, from any state. |
| Pomodoro.PomodoroTimer.SwitchMode | src/extension.ts:297-300 | The state becomes `Switched`. |
| Pomodoro.PomodoroTimer.SkipSession | src/extension.ts:302-312 | The state becomes `Skipped`, exactly one interval is registered, and a 3-second "Skipped to ..." notification is requested. |
| Pomodoro.PomodoroTimer.Dispose | src/extension.ts:314-319 | No interval is left registered. |

## Left out

- `rgbToHsl`, `hslToRgb` and `invertColor` are not modelled. They compute in floating point.
- `flashStatusBar` is not modelled beyond the `Flash(3)` request. It is asynchronous, reads and writes the workbench colour customisations, and uses timeouts.
- The constructor's removal of `statusBar.background` from the colour customisations is not modelled. It is an asynchronous settings write.
- `playNotificationSound` is modelled as one `Sound` request. Inside the progress it opens, the extension runs its own asynchronous loop (src/extension.ts:267-275): three audio-cue attempts 500 ms apart, with failed attempts logged. That loop is left out.
- Notifications are the `Notify(message, millis)` requests. The progress UI that shows and dismisses them is left out.
- The tooltip, the status item's `command`, and `show`/`dispose` of the status item are left out. They only render into the host.
- `activate` and `deactivate` are left out, and so is command registration. Among them is the "Pomodoro Timer has been reset" notification, which is sent by the reset command's handler in `activate` rather than by `reset`.
- Real time is left out. `Tick` is called once per elapsed second of a running timer, in place of `setInterval`. The handle is a flag, and the registered intervals are a ghost count.
- Session.WorkTime: configured minutes are natural numbers. Negative or fractional settings are not modelled. Zero is allowed, and then a tick goes to −1 before the switch, as the code does.
- Colour.HexToRgb: requires hex digits wherever `parseInt` is reached. What `parseInt` returns for other characters (`NaN`, or a prefix value) is not modelled.
- Colour.RgbToHex: components are integers. Fractional components, which `toString(16)` writes with a fraction, are not modelled. A negative component keeps its minus sign.
- Strings are sequences of characters. Lengths count characters, where JavaScript counts UTF-16 code units.
- The model follows the code in these details:
  - `skipSession` always restarts the countdown, even when the timer was paused (src/extension.ts:302-305);
  - the "Pomodoro Timer has been reset" notification is sent by the command handler, not by `reset` (src/extension.ts:331-338);
  - `dispose` clears the interval but keeps the handle and the paused flag (src/extension.ts:314-319);
  - with a zero-minute setting the remaining time is −1 inside a tick, before the switch (src/extension.ts:234-236).
