/**
 * The status-bar label of the timer, `<icon> Focus|Break MM:SS #n`, as `updateStatusBar` builds
 * it, and a reader for it: reading a label back recovers the state it was built from, so the
 * label shows the whole countdown state and nothing is lost in the formatting.
 */
module StatusBar {
  import opened Wrappers
  import opened Numerals

  const PAUSED_ICON := "$(play)"
  const RUNNING_ICON := "$(debug-stop)"

  /** The play icon while paused, the stop icon while counting down. */
  function Icon(isPaused: bool): string {
    if isPaused then PAUSED_ICON else RUNNING_ICON
  }

  function ModeName(isBreak: bool): string {
    if isBreak then "Break" else "Focus"
  }

  /** `n.toString().padStart(2, '0')`. */
  function Pad2(n: nat): string {
    PadStart(ToBase(n, 10), 2, '0')
  }

  /** `MM:SS` with `MM` the whole minutes and `SS` the remaining seconds. */
  function TimeString(t: nat): string {
    Pad2(t / 60) + ":" + Pad2(t % 60)
  }

  /** The status-bar text; the number after `#` is the session being worked on, one more than the completed count. */
  function Text(timeRemaining: nat, isBreak: bool, isPaused: bool, pomodoroCount: nat): string {
    Icon(isPaused) + " " + ModeName(isBreak) + " " + TimeString(timeRemaining) + " " + "#" + ToBase(pomodoroCount + 1, 10)
  }

  /** What a label says about the timer. */
  datatype View = View(isPaused: bool, isBreak: bool, timeRemaining: nat, pomodoroCount: nat)

  /** Position of the first `c` in `s`, or `|s|` when there is none. */
  function IndexOf(s: string, c: char): (i: nat)
    ensures i <= |s|
  {
    if s == [] then 0 else if s[0] == c then 0 else 1 + IndexOf(s[1..], c)
  }

  /** The rest of `s` after the prefix `p`, if `s` starts with `p`. */
  function StripPrefix(s: string, p: string): (r: Option<string>)
    ensures r.Some? <==> |p| <= |s| && s[..|p|] == p
    ensures r.Some? ==> s == p + r.value
  {
    if |p| <= |s| && s[..|p|] == p then Some(s[|p|..]) else None
  }

  /** Reads `MM:SS` (at least one digit of minutes, two digits of seconds below 60) as a number of seconds. */
  function ParseTime(s: string): Option<nat> {
    var i := IndexOf(s, ':');
    if i == |s| then None else ParseMinutesSeconds(s[..i], s[i + 1..])
  }

  /** The minutes and seconds fields on either side of the `:`. */
  function ParseMinutesSeconds(mm: string, ss: string): Option<nat> {
    if |mm| >= 1 && |ss| == 2 && AllDigits(mm, 10) && AllDigits(ss, 10) && FromBase(ss, 10) < 60
    then Some(FromBase(mm, 10) * 60 + FromBase(ss, 10))
    else None
  }

  /** Reads a whole label. */
  function ParseText(s: string): Option<View> {
    var paused := StripPrefix(s, PAUSED_ICON + " ");
    var running := StripPrefix(s, RUNNING_ICON + " ");
    if paused.Some? then ParseMode(paused.value, true)
    else if running.Some? then ParseMode(running.value, false)
    else None
  }

  function ParseMode(s: string, isPaused: bool): Option<View> {
    var focus := StripPrefix(s, "Focus ");
    var brk := StripPrefix(s, "Break ");
    if focus.Some? then ParseTail(focus.value, isPaused, false)
    else if brk.Some? then ParseTail(brk.value, isPaused, true)
    else None
  }

  function ParseTail(s: string, isPaused: bool, isBreak: bool): Option<View> {
    var i := IndexOf(s, ' ');
    if i == |s| then None
    else
      match ParseTime(s[..i])
      case None => None
      case Some(t) =>
        match ParseCount(s[i + 1..])
        case None => None
        case Some(count) => Some(View(isPaused, isBreak, t, count))
  }

  /** Reads `#n` (n a positive decimal number) as the completed count n - 1. */
  function ParseCount(s: string): Option<nat> {
    if |s| >= 2 && s[0] == '#' && AllDigits(s[1..], 10) && FromBase(s[1..], 10) >= 1
    then Some(FromBase(s[1..], 10) - 1)
    else None
  }

  /** A digit string contains no character that is not a digit. */
  lemma NoSeparator(s: string, base: nat, c: char)
    requires AllDigits(s, base) && !IsHexDigit(c)
    ensures c !in s
  {
    forall i | 0 <= i < |s|
      ensures s[i] != c
    {
    }
  }

  /** The first `c` in `a + [c] + b` is the one after `a` when `a` holds none. */
  lemma {:induction false} IndexOfAfter(a: string, c: char, b: string)
    requires c !in a
    ensures IndexOf(a + [c] + b, c) == |a|
  {
    if a != [] {
      assert (a + [c] + b)[1..] == a[1..] + [c] + b;
      IndexOfAfter(a[1..], c, b);
    }
  }

  /** A padded field is at least two digits, exactly two below 100, and reads back as its number. */
  lemma Pad2Reads(n: nat)
    ensures AllDigits(Pad2(n), 10) && |Pad2(n)| >= 2
    ensures FromBase(Pad2(n), 10) == n
    ensures n < 100 ==> |Pad2(n)| == 2
  {
    var s := ToBase(n, 10);
    FromToBase(n, 10);
    if |s| < 2 {
      assert Pad2(n) == "0" + s;
      FromBaseLeadingZero(s, 10);
    } else if n < 100 {
      DivStep(n, 10);
      assert s == ToBase(n / 10, 10) + [DigitChar(n % 10)];
    }
  }

  /** `MM:SS` built from digit strings reads as minutes times 60 plus seconds. */
  lemma ParseTimeOf(mm: string, ss: string, t: nat)
    requires |mm| >= 1 && AllDigits(mm, 10)
    requires |ss| == 2 && AllDigits(ss, 10) && FromBase(ss, 10) < 60
    requires FromBase(mm, 10) * 60 + FromBase(ss, 10) == t
    ensures ParseTime(mm + ":" + ss) == Some(t)
  {
    NoSeparator(mm, 10, ':');
    MinutesSecondsOf(mm, ss, t);
    var s := mm + ":" + ss;
    SplitAt(s, mm, ':', ss);
    ParseTimeAt(s, mm, ss, t);
    assert ParseTime(s) == Some(t);
  }

  // MinutesSecondsOf, ParseTimeAt, TimeStringIs, ParseTailAt and TextIs restate their requires
  // as their ensures; they exist so that the unfolding of the reader stays out of the proofs
  // that call them.

  lemma MinutesSecondsOf(mm: string, ss: string, t: nat)
    requires |mm| >= 1 && AllDigits(mm, 10)
    requires |ss| == 2 && AllDigits(ss, 10) && FromBase(ss, 10) < 60
    requires FromBase(mm, 10) * 60 + FromBase(ss, 10) == t
    ensures ParseMinutesSeconds(mm, ss) == Some(t)
  {
  }

  lemma ParseTimeAt(s: string, mm: string, ss: string, t: nat)
    requires IndexOf(s, ':') == |mm| < |s|
    requires s[..|mm|] == mm && s[|mm| + 1..] == ss
    requires ParseMinutesSeconds(mm, ss) == Some(t)
    ensures ParseTime(s) == Some(t)
  {
  }

  /** Reading back the `MM:SS` field gives the number of seconds, whatever the number of minutes. */
  lemma TimeStringReads(t: nat)
    ensures ParseTime(TimeString(t)) == Some(t)
  {
    var m, sec := Pad2(t / 60), Pad2(t % 60);
    FieldsRead(t, m, sec);
    TimeStringIs(t, m, sec);
  }

  lemma FieldsRead(t: nat, m: string, sec: string)
    requires m == Pad2(t / 60) && sec == Pad2(t % 60)
    ensures ParseTime(m + ":" + sec) == Some(t)
  {
    Pad2Reads(t / 60);
    Pad2Reads(t % 60);
    ParseTimeOf(m, sec, t);
  }

  lemma TimeStringIs(t: nat, m: string, sec: string)
    requires m == Pad2(t / 60) && sec == Pad2(t % 60)
    requires ParseTime(m + ":" + sec) == Some(t)
    ensures ParseTime(TimeString(t)) == Some(t)
  {
  }

  /** The seconds field is two digits and below 60, and the time field holds no space. */
  lemma TimeStringFields(t: nat)
    ensures |Pad2(t % 60)| == 2 && AllDigits(Pad2(t % 60), 10) && FromBase(Pad2(t % 60), 10) < 60
    ensures ' ' !in TimeString(t)
  {
    var m, sec := Pad2(t / 60), Pad2(t % 60);
    Pad2Reads(t / 60);
    Pad2Reads(t % 60);
    NoSeparator(m, 10, ' ');
    NoSeparator(sec, 10, ' ');
  }

  /** The part after the mode: the time field, a space, `#` and a positive session number. */
  lemma ParseTailOf(time: string, t: nat, digits: string, isPaused: bool, isBreak: bool)
    requires ParseTime(time) == Some(t)
    requires ' ' !in time
    requires |digits| >= 1 && AllDigits(digits, 10) && FromBase(digits, 10) >= 1
    ensures ParseTail(time + " " + "#" + digits, isPaused, isBreak)
         == Some(View(isPaused, isBreak, t, FromBase(digits, 10) - 1))
  {
    var s := time + " " + "#" + digits;
    Regroup(time, digits);
    ParseCountOf(digits);
    SplitAt(s, time, ' ', "#" + digits);
    var count := FromBase(digits, 10) - 1;
    ParseTailAt(s, time, t, "#" + digits, count, isPaused, isBreak);
    assert ParseTail(s, isPaused, isBreak) == Some(View(isPaused, isBreak, t, count));
  }

  lemma Regroup(time: string, digits: string)
    ensures time + " " + "#" + digits == time + [' '] + ("#" + digits)
  {
  }

  /** A separator after a field that does not contain it splits the field from the rest. */
  lemma SplitAt(s: string, field: string, c: char, rest: string)
    requires s == field + [c] + rest
    requires c !in field
    ensures IndexOf(s, c) == |field| < |s|
    ensures s[..|field|] == field && s[|field| + 1..] == rest
  {
    IndexOfAfter(field, c, rest);
  }

  lemma ParseTailAt(s: string, time: string, t: nat, rest: string, count: nat, isPaused: bool, isBreak: bool)
    requires IndexOf(s, ' ') == |time| < |s|
    requires s[..|time|] == time && s[|time| + 1..] == rest
    requires ParseTime(time) == Some(t)
    requires ParseCount(rest) == Some(count)
    ensures ParseTail(s, isPaused, isBreak) == Some(View(isPaused, isBreak, t, count))
  {
  }

  /** `#` followed by the digits of a positive number reads as that number minus one. */
  lemma ParseCountOf(digits: string)
    requires |digits| >= 1 && AllDigits(digits, 10) && FromBase(digits, 10) >= 1
    ensures ParseCount("#" + digits) == Some(FromBase(digits, 10) - 1)
  {
    assert ("#" + digits)[1..] == digits;
  }

  /** The icon and the mode word are read off the front of a label. */
  lemma ParseTextOf(isPaused: bool, isBreak: bool, tail: string)
    ensures ParseText(Icon(isPaused) + " " + ModeName(isBreak) + " " + tail) == ParseTail(tail, isPaused, isBreak)
  {
    var afterIcon := ModeName(isBreak) + " " + tail;
    assert Icon(isPaused) + " " + ModeName(isBreak) + " " + tail == (Icon(isPaused) + " ") + afterIcon;
    assert afterIcon == (ModeName(isBreak) + " ") + tail;
    ParseIconOf(isPaused, afterIcon);
    ParseModeOf(isPaused, isBreak, tail);
  }

  /** The icon at the front tells a paused timer from a running one. */
  lemma ParseIconOf(isPaused: bool, rest: string)
    ensures ParseText((Icon(isPaused) + " ") + rest) == ParseMode(rest, isPaused)
  {
    var s := (Icon(isPaused) + " ") + rest;
    if isPaused {
      assert StripPrefix(s, PAUSED_ICON + " ") == Some(rest);
    } else {
      assert StripPrefix(s, PAUSED_ICON + " ") == None by { assert s[2] == 'd'; }
      assert StripPrefix(s, RUNNING_ICON + " ") == Some(rest);
    }
  }

  /** The mode word after the icon tells a break from a focus session. */
  lemma ParseModeOf(isPaused: bool, isBreak: bool, rest: string)
    ensures ParseMode((ModeName(isBreak) + " ") + rest, isPaused) == ParseTail(rest, isPaused, isBreak)
  {
    var s := (ModeName(isBreak) + " ") + rest;
    if isBreak {
      assert StripPrefix(s, "Focus ") == None by { assert s[0] == 'B'; }
      assert StripPrefix(s, "Break ") == Some(rest);
    } else {
      assert StripPrefix(s, "Focus ") == Some(rest);
    }
  }

  /** Reading back a label gives the state it was built from. */
  lemma TextReads(timeRemaining: nat, isBreak: bool, isPaused: bool, pomodoroCount: nat)
    ensures ParseText(Text(timeRemaining, isBreak, isPaused, pomodoroCount))
         == Some(View(isPaused, isBreak, timeRemaining, pomodoroCount))
  {
    var time, digits := TimeString(timeRemaining), ToBase(pomodoroCount + 1, 10);
    TimeStringReads(timeRemaining);
    TimeStringFields(timeRemaining);
    FromToBase(pomodoroCount + 1, 10);
    ParseTailOf(time, timeRemaining, digits, isPaused, isBreak);
    var tail := time + " " + "#" + digits;
    ParseTextOf(isPaused, isBreak, tail);
    TextIs(timeRemaining, isBreak, isPaused, pomodoroCount, tail);
  }

  lemma TextIs(timeRemaining: nat, isBreak: bool, isPaused: bool, pomodoroCount: nat, tail: string)
    requires tail == TimeString(timeRemaining) + " " + "#" + ToBase(pomodoroCount + 1, 10)
    ensures Text(timeRemaining, isBreak, isPaused, pomodoroCount) == Icon(isPaused) + " " + ModeName(isBreak) + " " + tail
  {
    Reassociate(Icon(isPaused) + " " + ModeName(isBreak) + " ", TimeString(timeRemaining), " ", "#", ToBase(pomodoroCount + 1, 10));
  }

  /** Regrouping of a concatenation, stated over plain strings so that nothing else unfolds. */
  lemma Reassociate(a: string, b: string, c: string, d: string, e: string)
    ensures a + b + c + d + e == a + (b + c + d + e)
  {
  }

  /** Two states with the same label are the same state. */
  lemma TextInjective(t1: nat, b1: bool, p1: bool, c1: nat, t2: nat, b2: bool, p2: bool, c2: nat)
    requires Text(t1, b1, p1, c1) == Text(t2, b2, p2, c2)
    ensures t1 == t2 && b1 == b2 && p1 == p2 && c1 == c2
  {
    TextReads(t1, b1, p1, c1);
    TextReads(t2, b2, p2, c2);
  }
}
