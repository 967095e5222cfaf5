/** The view model: it turns the picked minutes and seconds into a START
    request for the service, issues the stop and reset requests, and holds the
    remaining time that the screen shows. */
module ViewModel {
  import opened Android
  import opened KotlinInts
  import opened Countdown

  /** The key under which `startTimer` puts the duration. */
  const KEY_DURATION: string := "duration"

  /** How a request reaches the service. Every intent here targets the timer service. */
  datatype ServiceRequest =
    | StartForegroundService(intent: Intent)
    | StartService(intent: Intent)
    | StopService(intent: Intent)

  /** `(minutes * 60 + seconds) * 1000L`: the sum is `Int` arithmetic, which
      wraps, and only the product is taken as a `Long`. */
  function Duration(minutes: int, seconds: int): (d: int)
    requires IsInt(minutes) && IsInt(seconds)
    ensures IsLong(d) && d % 1000 == 0
  {
    WrapInt(WrapInt(minutes * 60) + seconds) * 1000
  }

  /** `startTimer`: a foreground-service start whose intent carries `ACTION_START`
      and the duration under the key "duration". */
  function StartTimer(minutes: int, seconds: int): (r: ServiceRequest)
    requires IsInt(minutes) && IsInt(seconds)
  {
    StartForegroundService(Intent(Some(ACTION_START), map[KEY_DURATION := Duration(minutes, seconds)]))
  }

  /** `stopTimer`: stop the service with a plain intent that names no action. */
  function StopTimer(): (r: ServiceRequest)
  {
    StopService(Intent(None, map[]))
  }

  /** `resetTimer`: start the service with `ACTION_RESET`. */
  function ResetTimer(): (r: ServiceRequest)
  {
    StartService(Intent(Some(ACTION_RESET), map[]))
  }

  /** With both pickers in 0..59 nothing wraps: the duration is the picked time in
      milliseconds, a whole number of seconds in [0, 3 599 000], and 0 exactly
      for 0:00. */
  lemma PickerDuration(minutes: int, seconds: int)
    requires 0 <= minutes <= 59 && 0 <= seconds <= 59
    ensures Duration(minutes, seconds) == (minutes * 60 + seconds) * 1000
    ensures 0 <= Duration(minutes, seconds) <= 3_599_000
    ensures Duration(minutes, seconds) == 0 <==> minutes == 0 && seconds == 0
  {
  }

  /** The START request carries `ACTION_START`, and reading the key it wrote gives
      back the duration. */
  lemma StartCarriesDuration(minutes: int, seconds: int)
    requires IsInt(minutes) && IsInt(seconds)
    ensures StartTimer(minutes, seconds).StartForegroundService?
    ensures StartTimer(minutes, seconds).intent.action == Some(ACTION_START)
    ensures GetLong(StartTimer(minutes, seconds).intent.extras, KEY_DURATION, 0) == Duration(minutes, seconds)
  {
  }

  /** The service reads its duration under `EXTRA_DURATION`, not under the key the
      view model writes, so every START from the view model reaches the service
      as a start with duration 0, which starts no countdown. */
  lemma StartReadsZeroDuration(minutes: int, seconds: int)
    requires IsInt(minutes) && IsInt(seconds)
    ensures Decode(Some(StartTimer(minutes, seconds).intent)) == Start(0)
  {
    assert KEY_DURATION != EXTRA_DURATION;
  }

  /** RESET reaches the service as a reset; the stop request is a service stop
      whose intent names no action (it reaches the service as `onDestroy`, not
      as a command). */
  lemma ResetAndStopRequests()
    ensures ResetTimer().StartService? && Decode(Some(ResetTimer().intent)) == Reset
    ensures StopTimer().StopService? && StopTimer().intent.action == None
  {
  }

  /** A fresh service handed the view model's START for any picked time posts
      its foreground notice, records a duration of 0 and runs no countdown. */
  method PickedStartRunsNothing(minutes: int, seconds: int) returns (service: TimerService)
    requires IsInt(minutes) && IsInt(seconds)
    ensures service.Valid() && !service.Running() && service.jobs == []
    ensures service.durationMillis == 0 && service.remainingMillis == 0
    ensures service.log == [Starting(NOTIFICATION_ID)]
  {
    service := new TimerService();
    StartReadsZeroDuration(minutes, seconds);
    service.OnStartCommand(Some(StartTimer(minutes, seconds).intent));
  }

  class TimerViewModel {
    /** The value of the `remainingTime` state flow. */
    var remainingTime: int

    constructor ()
      ensures remainingTime == 0
    {
      remainingTime := 0;
    }

    /** `updateTime`: the state flow holds one value, and the latest update
        replaces it whatever it was. */
    method UpdateTime(millis: int)
      modifies this
      ensures remainingTime == millis
    {
      remainingTime := millis;
    }
  }
}
