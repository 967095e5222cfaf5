/** The boot receiver: on `ACTION_BOOT_COMPLETED` it reads the persisted
    remaining time and start time, corrects the remaining time by the wall-clock
    time elapsed since the start, and relaunches the app's activity when time
    is left. Preferences and the clock are inputs; the relaunch is a returned
    decision. */
module Boot {
  import opened Android
  import opened KotlinInts

  const ACTION_BOOT_COMPLETED: string := "android.intent.action.BOOT_COMPLETED"
  const KEY_REMAINING: string := "remainingTime"
  const KEY_START: string := "startTime"

  /** What `onReceive` ends up doing. */
  datatype BootOutcome =
    | NotBoot          // another broadcast: nothing at all
    | NoSavedTimer     // no positive remaining time and start time persisted
    | Expired          // the corrected remaining time is 0: nothing is launched
    | RelaunchActivity // the main activity is started in a new task

  /** `System.currentTimeMillis() - startTime`, a `Long` subtraction. */
  function Elapsed(start: int, now: int): int
  {
    WrapLong(now - start)
  }

  /** `maxOf(0, remainingTime - elapsed)`: the remaining time corrected for the
      time elapsed since it was saved, never negative. */
  function Adjusted(remaining: int, start: int, now: int): (a: int)
    ensures a >= 0 && IsLong(a)
    ensures a == 0 || a == WrapLong(remaining - Elapsed(start, now))
    ensures a >= WrapLong(remaining - Elapsed(start, now))
  {
    MaxOf(0, WrapLong(remaining - Elapsed(start, now)))
  }

  /** `onReceive`: only a boot broadcast does any work; resuming is considered
      only when both persisted values are positive, and the activity is
      relaunched only when the corrected time is positive. The preferences are
      only read. */
  function OnReceive(intent: Intent, prefs: map<string, int>, now: int): (o: BootOutcome)
    ensures o != NotBoot <==> intent.action == Some(ACTION_BOOT_COMPLETED)
    ensures o.Expired? || o.RelaunchActivity? <==>
      intent.action == Some(ACTION_BOOT_COMPLETED)
      && GetLong(prefs, KEY_REMAINING, 0) > 0 && GetLong(prefs, KEY_START, 0) > 0
    ensures o.RelaunchActivity? ==> Adjusted(GetLong(prefs, KEY_REMAINING, 0), GetLong(prefs, KEY_START, 0), now) > 0
    ensures o.Expired? ==> Adjusted(GetLong(prefs, KEY_REMAINING, 0), GetLong(prefs, KEY_START, 0), now) == 0
  {
    if intent.action != Some(ACTION_BOOT_COMPLETED) then NotBoot
    else
      var remainingTime := GetLong(prefs, KEY_REMAINING, 0);
      var startTime := GetLong(prefs, KEY_START, 0);
      if remainingTime > 0 && startTime > 0 then
        var adjustedTime := Adjusted(remainingTime, startTime, now);
        if adjustedTime > 0 then RelaunchActivity else Expired
      else NoSavedTimer
  }

  /** With a clock that has not gone backwards since the start, no `Long`
      arithmetic wraps: the corrected time is `max(0, remaining - (now - start))`,
      never more than the saved remaining time. */
  lemma AdjustedWithinRemaining(remaining: int, start: int, now: int)
    requires IsLong(remaining) && IsLong(start) && IsLong(now)
    requires remaining > 0 && start > 0 && now >= start
    ensures Elapsed(start, now) == now - start
    ensures Adjusted(remaining, start, now) == MaxOf(0, remaining - (now - start))
    ensures Adjusted(remaining, start, now) <= remaining
  {
  }

  /** The resume law: after a boot at `now >= start`, the activity is relaunched
      exactly when less time has elapsed than remained, and the timer counts as
      expired exactly when at least that much has elapsed. */
  lemma RelaunchIffTimeLeft(intent: Intent, prefs: map<string, int>, now: int)
    requires intent.action == Some(ACTION_BOOT_COMPLETED)
    requires KEY_REMAINING in prefs && KEY_START in prefs
    requires prefs[KEY_REMAINING] > 0 && prefs[KEY_START] > 0
    requires IsLong(prefs[KEY_REMAINING]) && IsLong(prefs[KEY_START]) && IsLong(now)
    requires now >= prefs[KEY_START]
    ensures OnReceive(intent, prefs, now).RelaunchActivity? <==> now - prefs[KEY_START] < prefs[KEY_REMAINING]
    ensures OnReceive(intent, prefs, now).Expired? <==> now - prefs[KEY_START] >= prefs[KEY_REMAINING]
  {
    AdjustedWithinRemaining(prefs[KEY_REMAINING], prefs[KEY_START], now);
  }

  /** A missing preference reads as 0, so nothing is resumed without both values. */
  lemma MissingPrefsResumeNothing(intent: Intent, prefs: map<string, int>, now: int)
    requires intent.action == Some(ACTION_BOOT_COMPLETED)
    requires KEY_REMAINING !in prefs || KEY_START !in prefs
    ensures OnReceive(intent, prefs, now) == NoSavedTimer
  {
  }

  /** When the clock reads earlier than the saved start, the elapsed time is
      negative and the corrected time exceeds the saved remaining time (as long
      as the sum fits a `Long`): the correction is not bounded by `remaining`. */
  lemma ClockBehindAddsTime(remaining: int, start: int, now: int)
    requires IsLong(remaining) && IsLong(start) && IsLong(now)
    requires remaining > 0 && start > 0 && 0 <= now < start
    requires remaining + (start - now) <= LONG_MAX
    ensures Adjusted(remaining, start, now) == remaining + (start - now) > remaining
  {
  }
}
