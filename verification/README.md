# Countdown timer: a Dafny model

This project models the logic of a small Android countdown-timer app. The app
has four parts with logic of their own:

- **The timer service** (`TimerService.kt`). A START intent with a positive
  duration cancels any running countdown coroutine and launches a new one. The
  coroutine waits a second, subtracts 1000 ms and posts a "N min left" update
  whenever the value is a whole number of minutes. When the value is no longer
  positive it posts a "finished" notification and stops the service. RESET
  and `onDestroy` cancel the coroutine.
- **The boot receiver** (`BootReceiver.kt`). After a reboot it reads the
  persisted remaining time and start time and computes
  `max(0, remaining - (now - start))`. It relaunches the activity when that is
  positive.
- **The view model** (`TimerViewModel.kt`). It turns the picked minutes and
  seconds into milliseconds, sends START, stop and RESET requests, and holds
  the remaining time that the screen shows.
- **The activity** (`MainActivity.kt`). It renders milliseconds as `MM:SS`
  and forwards time-update messages to the view model.

Modules:

- `KotlinInts` (`kotlin_ints.dfy`): Kotlin's `Int` and `Long` wrap-around and
  its truncating `/` and `%`, written out over unbounded integers.
- `Android` (`android.dfy`): intents as values, and the `getLong(key, default)`
  lookup that intents and shared preferences share.
- `Countdown` (`countdown.dfy`): the service as a class `TimerService`. Its
  fields are `durationMillis`, `remainingMillis`, the launched coroutine jobs
  (the last one is `timerJob`), a `stopSelf` flag and a log of posted
  notifications. The tick loop is proved against pure functions:
  `TickValues(r)` is the list of values the loop produces, `MinuteNotices` is
  what those ticks post, `RunNotices` is a whole run, and `Post` is what the
  notification shade shows.
- `Boot` (`boot.dfy`): the boot receiver as a pure function of the boot
  intent, the preferences and the clock reading.
- `ViewModel` (`view_model.dfy`): the duration formula and the three requests
  as values, plus the class `TimerViewModel` with its state field.
- `Activity` (`activity.dfy`): `TimeDisplay` with Java's `%02d` formatting,
  and the class `MainActivity` with its message handler.

Behaviour of the code worth knowing:

- The view model stores the duration under the key `"duration"`. The service
  reads the key `"EXTRA_DURATION"` with default 0. So every START coming from
  the view model reaches the service as a duration of 0 and starts nothing
  (`ViewModel.StartReadsZeroDuration`, `ViewModel.PickedStartRunsNothing`).
- Minute updates are posted under the same id as the foreground notification.
  Each one replaces the one before, so the shade holds one minute update at a
  time (`Countdown.ShadeAfterRun`).
- The loop does not stop at 0. A duration that is not a whole number of
  seconds exits below zero, and it never posts a minute update.
- The service handles only START and RESET. The app's stop request is a plain
  `stopService`, which reaches the service as `onDestroy`.
- Nothing in the code writes the preferences `remainingTime` or `startTime`;
  only the boot receiver reads them.
- The boot receiver corrects the remaining time by the time elapsed since the
  saved start. If the clock now reads earlier than the saved start, the
  corrected time exceeds the saved time (`Boot.ClockBehindAddsTime`).

## Model

| member | source | states |
|---|---|---|
| `Countdown.Decode` | app/src/main/java/com/staple/apiservicetestapp/TimerService.kt:35-47 | A START intent becomes a start whose duration is the `EXTRA_DURATION` extra, or 0 when that extra is missing. RESET becomes a reset. Any other action, or no intent at all, is ignored. Both directions are stated. |
| `Countdown.CancelLatest` | app/src/main/java/com/staple/apiservicetestapp/TimerService.kt:72-74 | Cancelling turns an active latest job into a cancelled one and leaves every earlier job untouched; a completed or already cancelled job, or no job at all, is left as it is. |
| `Countdown.CancelIdempotent` | app/src/main/java/com/staple/apiservicetestapp/TimerService.kt:72-74 | Cancelling twice equals cancelling once. |
| `Countdown.AtMostOneActive` | app/src/main/java/com/staple/apiservicetestapp/TimerService.kt:52-55 | Under the service invariant, any two active jobs are the same job, and it is the latest one. |
| `Countdown.RestartKeepsOneActive` | app/src/main/java/com/staple/apiservicetestapp/TimerService.kt:52-55 | Cancelling the previous job before launching a new one keeps at most one countdown active. |
| `Countdown.TickValuesAt` | app/src/main/java/com/staple/apiservicetestapp/TimerService.kt:56-58 | The i-th value of `TickValues(start)` is `start - 1000*(i+1)`, consecutive values differ by exactly 1000, every value but the last is positive, and the last is the exit value. |
| `Countdown.TickValuesLength` | app/src/main/java/com/staple/apiservicetestapp/TimerService.kt:56-58 | A countdown from d > 0 runs exactly ceil(d/1000) ticks, and none for d ≤ 0. |
| `Countdown.FinalRemainingRange` | app/src/main/java/com/staple/apiservicetestapp/TimerService.kt:56-58 | A countdown from d > 0 exits with `remainingMillis` in (-1000, 0], equal to d minus 1000 per tick. It exits at exactly 0 if and only if d is a multiple of 1000. |
| `Countdown.MinuteNoticeWhen` | app/src/main/java/com/staple/apiservicetestapp/TimerService.kt:61-64 | For every value v > -1000 the loop can produce, `MinuteNotice(v)` (one tick's post) is a single "v/60000 min" update under id 1 if v is a multiple of 60000 and nothing otherwise, so Kotlin's truncating `%` and `/` agree with the mathematical ones here. |
| `Countdown.DescendingAt` | app/src/main/java/com/staple/apiservicetestapp/TimerService.kt:61-64 | `Descending(k)` has k+1 entries, and its i-th entry is the minute update "k-i min" under `NOTIFICATION_ID`. |
| `Countdown.MinuteNoticesOfRun` | app/src/main/java/com/staple/apiservicetestapp/TimerService.kt:56-65 | A countdown from d > 0 posts exactly `Descending((d-1000)/60000)` when d is a whole number of seconds, that is "k min", "k-1 min", …, "0 min" for k = (d-1000)/60000 (by `DescendingAt`). For any other d it posts no minute update. |
| `Countdown.LastTickPostsZero` | app/src/main/java/com/staple/apiservicetestapp/TimerService.kt:56-64 | For a whole-second duration, the final tick's value is exactly 0, and that tick posts the "0 min" update under `NOTIFICATION_ID`. |
| `Countdown.RunFinishesOnce` | app/src/main/java/com/staple/apiservicetestapp/TimerService.kt:61-67 | In a completed run, every notice but the last is a minute update under `NOTIFICATION_ID` (1). The last notice is the single "finished" notice under id 2. |
| `Countdown.NinetySecondRun` | app/src/main/java/com/staple/apiservicetestapp/TimerService.kt:52-68 | A 1:30 countdown runs 90 ticks, ends at exactly 0 and posts "1 min", "0 min" and then "finished". |
| `Countdown.PostDescending` | app/src/main/java/com/staple/apiservicetestapp/TimerService.kt:76-80 | All minute updates are posted under one id, so after a run of them the shade shows only the last one, "0 min". |
| `Countdown.ShadeAfterRun` | app/src/main/java/com/staple/apiservicetestapp/TimerService.kt:56-92 | After a complete run, the shade shows the finished notice under id 2. Under id 1 it shows "0 min" for a whole-second duration, and otherwise whatever was there before the run. |
| `Countdown.TimerService.constructor` | app/src/main/java/com/staple/apiservicetestapp/TimerService.kt:23-30 | A created service has duration and remaining time 0, no job and nothing posted. |
| `Countdown.TimerService.OnStartCommand` | app/src/main/java/com/staple/apiservicetestapp/TimerService.kt:32-50 | Every command posts the foreground notice under id 1. START always overwrites `durationMillis`, and it starts a countdown, replacing the previous one, only when the duration is positive. RESET cancels the countdown and stops the service and changes nothing else. Other intents change nothing else. The invariant is kept. |
| `Countdown.TimerService.StartTimer` | app/src/main/java/com/staple/apiservicetestapp/TimerService.kt:52-55 | The previous job is cancelled, `remainingMillis` is set to the duration and one new active job is launched. Nothing is posted. |
| `Countdown.TimerService.StopTimer` | app/src/main/java/com/staple/apiservicetestapp/TimerService.kt:72-74 | No countdown is active afterwards. The latest job is cancelled if it was active, and nothing else changes. |
| `Countdown.TimerService.StopSelf` | app/src/main/java/com/staple/apiservicetestapp/TimerService.kt:43-46 | Records that the service asked to be stopped. Nothing else changes. |
| `Countdown.TimerService.OnDestroy` | app/src/main/java/com/staple/apiservicetestapp/TimerService.kt:127-130 | Destroying the service cancels the countdown and changes nothing else. |
| `Countdown.TimerService.TickBody` | app/src/main/java/com/staple/apiservicetestapp/TimerService.kt:57-64 | One iteration subtracts exactly 1000 and posts the minute update for the new value, if there is one. |
| `Countdown.TimerService.Finish` | app/src/main/java/com/staple/apiservicetestapp/TimerService.kt:67-68 | After the loop, the finished notice is posted under id 2, the job completes and the service asks to be stopped. |
| `Countdown.TimerService.Tick` | app/src/main/java/com/staple/apiservicetestapp/TimerService.kt:56-68 | Only an active countdown ticks. A tick lowers the value by 1000 and posts its minute update. The countdown stays active if and only if the value is still positive; otherwise the finished notice is posted and the service stops. |
| `Countdown.TimerService.RunToCompletion` | app/src/main/java/com/staple/apiservicetestapp/TimerService.kt:55-69 | The uninterrupted loop ticks once for each value of `TickValues(start)`. It posts exactly `RunNotices(start)`, exits at `FinalRemaining(start)` and completes its job. |
| `Boot.Adjusted` | app/src/main/java/com/staple/apiservicetestapp/BootReceiver.kt:21-22 | The corrected remaining time is exactly the larger of 0 and the `Long` result of `remaining - elapsed`. |
| `Boot.OnReceive` | app/src/main/java/com/staple/apiservicetestapp/BootReceiver.kt:12-32 | Only a boot intent does any work. Resuming is considered if and only if both persisted values are positive. A relaunch happens only when the corrected time is positive, and "expired" only when it is 0. The preferences are only read. |
| `Boot.AdjustedWithinRemaining` | app/src/main/java/com/staple/apiservicetestapp/BootReceiver.kt:21-22 | For positive saved values and now ≥ start, `Elapsed` (the `Long` subtraction of line 21) is exactly `now - start`, the corrected time is `max(0, remaining - (now - start))`, and it never exceeds `remaining`. |
| `Boot.RelaunchIffTimeLeft` | app/src/main/java/com/staple/apiservicetestapp/BootReceiver.kt:20-28 | When now ≥ start, the activity is relaunched if and only if `now - start < remaining`. It is treated as expired if and only if `now - start ≥ remaining`. |
| `Boot.MissingPrefsResumeNothing` | app/src/main/java/com/staple/apiservicetestapp/BootReceiver.kt:17-20 | A missing preference reads as 0, so nothing is resumed. |
| `Boot.ClockBehindAddsTime` | app/src/main/java/com/staple/apiservicetestapp/BootReceiver.kt:21-22 | For positive saved values, when 0 ≤ now < start and `remaining + (start - now)` fits in a `Long`, the corrected time is `remaining + (start - now)`, which is more than was saved. |
| `ViewModel.Duration` | app/src/main/java/com/staple/apiservicetestapp/TimerViewModel.kt:17 | For any `Int` inputs, the duration is a `Long` and a multiple of 1000, including when the `Int` sum wraps. |
| `ViewModel.PickerDuration` | app/src/main/java/com/staple/apiservicetestapp/TimerViewModel.kt:17 | For minutes and seconds in 0..59, the duration is `(minutes*60 + seconds)*1000` and lies in [0, 3 599 000]. It is 0 if and only if 0:00 was picked. |
| `ViewModel.StartCarriesDuration` | app/src/main/java/com/staple/apiservicetestapp/TimerViewModel.kt:15-21 | `StartTimer` yields a foreground-service start whose intent has `ACTION_START`, and reading its key "duration" gives back `Duration(minutes, seconds)`. |
| `ViewModel.StartReadsZeroDuration` | app/src/main/java/com/staple/apiservicetestapp/TimerViewModel.kt:17-20 | The service decodes every START from the view model as a start with duration 0, because the two use different keys. |
| `ViewModel.ResetAndStopRequests` | app/src/main/java/com/staple/apiservicetestapp/TimerViewModel.kt:23-31 | `ResetTimer` yields a service start that the service decodes as a reset, and `StopTimer` yields a service stop whose intent names no action. |
| `ViewModel.PickedStartRunsNothing` | app/src/main/java/com/staple/apiservicetestapp/TimerViewModel.kt:15-21 | A fresh service given the view model's START for any picked time posts only its foreground notice. It records duration 0 and runs no countdown. |
| `ViewModel.TimerViewModel.constructor` | app/src/main/java/com/staple/apiservicetestapp/TimerViewModel.kt:12-13 | The remaining time starts at 0. |
| `ViewModel.TimerViewModel.UpdateTime` | app/src/main/java/com/staple/apiservicetestapp/TimerViewModel.kt:33-37 | After an update, the remaining time is the value given, whatever it was before. The latest value wins and nothing is queued. |
| `Activity.Decimal` | app/src/main/java/com/staple/apiservicetestapp/MainActivity.kt:191 | Decimal text is digits only, at least one character, one character if and only if n < 10, and has no leading zero for n ≥ 1. |
| `Activity.ValueOfDecimal` | app/src/main/java/com/staple/apiservicetestapp/MainActivity.kt:191 | The decimal digits written for n read back as n. |
| `Activity.Format02` | app/src/main/java/com/staple/apiservicetestapp/MainActivity.kt:191 | `%02d` gives at least two characters, exactly two for 0..99, with a leading zero only to reach width two; a non-negative number is all digits reading back as itself, and a negative one is `-` followed by its magnitude with no leading zero. |
| `KotlinInts.Quot` | app/src/main/java/com/staple/apiservicetestapp/MainActivity.kt:188-189 | Kotlin's `Long` division by a positive divisor rounds toward zero: `q*b ≤ a < q*b + b` for a ≥ 0 and `q*b - b < a ≤ q*b` for a < 0, and `q*b + Rem(a, b) == a`, with the remainder in (-b, b) and never positive for a < 0. |
| `Activity.DisplaySplit` | app/src/main/java/com/staple/apiservicetestapp/MainActivity.kt:188-189 | For ms ≥ 0, `DisplaySeconds(ms)` is in 0..59, `DisplayMinutes(ms)*60 + DisplaySeconds(ms) == ms/1000`, and `DisplayMinutes(ms) == ms/60000`, not reduced modulo 60. |
| `Activity.SubSecondTruncated` | app/src/main/java/com/staple/apiservicetestapp/MainActivity.kt:188-191 | All ms in [1000k, 1000k+999] show the same minutes, seconds and text. |
| `Activity.TimeDisplayReadsBack` | app/src/main/java/com/staple/apiservicetestapp/MainActivity.kt:186-195 | For ms ≥ 0, `TimeDisplay(ms)` is at least two minute digits, `:` and exactly two second digits, reading back as `DisplayMinutes(ms)` and `DisplaySeconds(ms)`. |
| `Activity.PickerRoundTrip` | app/src/main/java/com/staple/apiservicetestapp/MainActivity.kt:188-191 | For a time picked in 0..59 : 0..59, the display of its duration shows the same minutes and seconds. |
| `Activity.NegativeTimeDisplay` | app/src/main/java/com/staple/apiservicetestapp/MainActivity.kt:188-191 | A negative time above -1000 shows 0 seconds. From -1000 down to -59999, the truncating remainder gives a negative seconds field, which is shown with its sign. |
| `Activity.MainActivity.constructor` | app/src/main/java/com/staple/apiservicetestapp/MainActivity.kt:62 | The activity owns a new view model whose remaining time is 0. |
| `Activity.MainActivity.HandleMessage` | app/src/main/java/com/staple/apiservicetestapp/MainActivity.kt:39-48 | A message with `what == MSG_UPDATE_TIME` (1) sets the view model's remaining time to its `arg1`. Any other message changes nothing. |

## Left out

- Notification building, the channel, `startForeground`, the ringtone and the
  pending intents are platform calls. Each posted notification is recorded
  only as its id and kind: starting, minutes left, or finished.
- The Android system's reaction to `stopSelf` and `stopService` is not
  modelled. `stopSelf` is a flag, and `onDestroy` is its own operation.
- Coroutine scheduling and the one-second timing are not modelled, and
  neither are races with cancellation. A tick is atomic, and a cancellation
  takes effect between ticks. `Tick` is one `delay(1000)`;
  `RunToCompletion` is the loop with no command arriving in between.
- `SharedPreferences` reads and `System.currentTimeMillis()` are
  parameters of `Boot.OnReceive`. The activity launch is its returned
  decision, and intent delivery is a `ServiceRequest` value.
- Service binding, the permission request, `resumeIfNeeded` (which has no
  definition), the Compose layout, the number pickers and
  TimerPickerScreen.kt are UI or platform glue. They are not part of this
  model.
- `ViewModel.TimerViewModel.UpdateTime`: the state flow is updated through a
  coroutine launched on the view model's scope. The model assigns the value
  at once.
- `Activity.Format02`: `String.format` uses the default locale. The model
  writes ASCII digits.
- `Countdown.TimerService.TickBody`: the `Long` subtraction is not wrapped.
  From a positive `Long` start the value stays in (-1000, start], so it
  cannot wrap.
- The debug `Log.d` call on boot is a log line only and is not modelled.
- The `START_STICKY` return value is not modelled as such. Its effect, a
  restart with a null intent, is covered by `Countdown.Decode` mapping a
  missing intent to `Ignore`.
- Intent extras and the preferences are modelled as `Long` values only. A
  value of another type under the same key is not modelled: `getLongExtra`
  then returns the default, while `SharedPreferences.getLong` throws
  `ClassCastException`. `Android.GetLong` models only the default lookup. The
  code shown never writes the preference keys, so nothing here depends on it.
