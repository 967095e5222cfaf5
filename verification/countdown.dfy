/** The countdown engine of the timer service: the START / RESET dispatch of
    `onStartCommand`, the one-second tick loop that `startTimer` launches, its
    cancellation by `stopTimer` and `onDestroy`, and the notifications the
    service posts, recorded as (id, payload) events. */
module Countdown {
  import opened Android
  import opened KotlinInts

  const ACTION_START: string := "ACTION_START"
  const ACTION_RESET: string := "ACTION_RESET"
  const EXTRA_DURATION: string := "EXTRA_DURATION"
  /** The id of the foreground notification, reused for every minute update. */
  const NOTIFICATION_ID: int := 1
  /** The id of the "timer finished" notification. */
  const FINISHED_ID: int := NOTIFICATION_ID + 1
  /** One `delay(1000)`; the loop subtracts this much per tick. */
  const TICK_MILLIS: int := 1000
  const MINUTE_MILLIS: int := 60 * 1000

  /** A notification posted under `id`. */
  datatype Notice =
    | Starting(id: int)                  // the "timer is starting" text of startForeground
    | MinutesLeft(id: int, minutes: int) // the "N min left" update
    | Finished(id: int)                  // the "time is up" notification, with its sound

  /** What a delivered intent asks of the service. */
  datatype Command = Start(duration: int) | Reset | Ignore

  /** The `when (intent?.action)` dispatch: START reads its duration from the
      `EXTRA_DURATION` extra with default 0; RESET; anything else, including a
      missing intent, does nothing. */
  function Decode(intent: Option<Intent>): (c: Command)
    ensures c.Start? <==> intent.Some? && intent.value.action == Some(ACTION_START)
    ensures c.Reset? <==> intent.Some? && intent.value.action == Some(ACTION_RESET)
    ensures c.Start? ==> c.duration == GetLong(intent.value.extras, EXTRA_DURATION, 0)
  {
    match intent
    case None => Ignore
    case Some(i) =>
      if i.action == Some(ACTION_START) then Start(GetLong(i.extras, EXTRA_DURATION, 0))
      else if i.action == Some(ACTION_RESET) then Reset
      else Ignore
  }

  // ---------------------------------------------------------------------------
  // Coroutine jobs

  /** The state of one coroutine launched by `startTimer`. */
  datatype JobStatus = Active | Cancelled | Completed

  /** `timerJob?.cancel()`: the latest job is cancelled if it is still active;
      a completed or already cancelled job, or no job at all, is left as it is. */
  function CancelLatest(jobs: seq<JobStatus>): (r: seq<JobStatus>)
    ensures |r| == |jobs|
    ensures forall i | 0 <= i < |jobs| - 1 :: r[i] == jobs[i]
    ensures jobs != [] ==> r[|r| - 1] != Active
    ensures jobs != [] && jobs[|jobs| - 1] == Active ==> r[|r| - 1] == Cancelled
    ensures jobs != [] && jobs[|jobs| - 1] != Active ==> r == jobs
  {
    if jobs != [] && jobs[|jobs| - 1] == Active then jobs[..|jobs| - 1] + [Cancelled] else jobs
  }

  /** Every job but the latest has stopped: at most one countdown is active. */
  predicate OnlyLatestMayRun(jobs: seq<JobStatus>)
  {
    forall i | 0 <= i < |jobs| - 1 :: jobs[i] != Active
  }

  /** Cancelling twice is cancelling once. */
  lemma CancelIdempotent(jobs: seq<JobStatus>)
    ensures CancelLatest(CancelLatest(jobs)) == CancelLatest(jobs)
  {
  }

  /** Two active jobs are the same job. */
  lemma AtMostOneActive(jobs: seq<JobStatus>, i: nat, j: nat)
    requires OnlyLatestMayRun(jobs)
    requires i < |jobs| && j < |jobs| && jobs[i] == Active && jobs[j] == Active
    ensures i == j == |jobs| - 1
  {
  }

  /** Launching a new job after cancelling the latest keeps at most one active. */
  lemma RestartKeepsOneActive(jobs: seq<JobStatus>)
    requires OnlyLatestMayRun(jobs)
    ensures OnlyLatestMayRun(CancelLatest(jobs) + [Active])
  {
  }

  // ---------------------------------------------------------------------------
  // The specification of the tick loop

  /** The successive values of `remainingMillis` that the loop started at `r`
      produces, one per tick, until the value is no longer positive. */
  function TickValues(r: int): (vs: seq<int>)
    decreases if r > 0 then r else 0
  {
    if r <= 0 then [] else [r - TICK_MILLIS] + TickValues(r - TICK_MILLIS)
  }

  /** The value `remainingMillis` holds when the loop started at `r` exits. */
  function FinalRemaining(r: int): int
    decreases if r > 0 then r else 0
  {
    if r <= 0 then r else FinalRemaining(r - TICK_MILLIS)
  }

  /** What one tick posts once `remainingMillis` has become `v`: a minute update
      exactly when `v` is a whole number of minutes. */
  function MinuteNotice(v: int): seq<Notice>
  {
    if Rem(v, MINUTE_MILLIS) == 0 then [MinutesLeft(NOTIFICATION_ID, Quot(v, MINUTE_MILLIS))] else []
  }

  /** What the ticks producing the values `vs` post, in order. */
  function MinuteNotices(vs: seq<int>): seq<Notice>
  {
    if vs == [] then [] else MinuteNotice(vs[0]) + MinuteNotices(vs[1..])
  }

  /** Everything a countdown started at `r` posts when it runs to the end. */
  function RunNotices(r: int): seq<Notice>
  {
    MinuteNotices(TickValues(r)) + [Finished(FINISHED_ID)]
  }

  /** The minute updates "k min", "k-1 min", ..., "0 min", in that order. */
  function Descending(k: nat): seq<Notice>
  {
    [MinutesLeft(NOTIFICATION_ID, k)] + if k == 0 then [] else Descending(k - 1)
  }

  /** The i-th published value is exactly `1000 * (i + 1)` below the start, so the
      values strictly decrease by one second per tick, and only the last one is
      not positive. */
  lemma {:induction false} TickValuesAt(r: int, i: nat)
    requires i < |TickValues(r)|
    ensures TickValues(r)[i] == r - TICK_MILLIS * (i + 1)
    ensures i < |TickValues(r)| - 1 ==> TickValues(r)[i] > 0 && TickValues(r)[i + 1] == TickValues(r)[i] - TICK_MILLIS
    ensures i == |TickValues(r)| - 1 ==> TickValues(r)[i] == FinalRemaining(r)
  {
    if i > 0 {
      TickValuesAt(r - TICK_MILLIS, i - 1);
    } else if |TickValues(r)| > 1 {
      TickValuesAt(r - TICK_MILLIS, 0);
    }
  }

  /** A countdown from `r > 0` takes ceil(r / 1000) ticks. */
  lemma {:induction false} TickValuesLength(r: int)
    ensures |TickValues(r)| == if r <= 0 then 0 else (r + TICK_MILLIS - 1) / TICK_MILLIS
  {
    if r > 0 {
      TickValuesLength(r - TICK_MILLIS);
    }
  }

  /** A countdown from `r > 0` exits with a value in (-1000, 0], which is 0
      exactly when `r` is a whole number of seconds. */
  lemma {:induction false} FinalRemainingRange(r: int)
    requires r > 0
    ensures -TICK_MILLIS < FinalRemaining(r) <= 0
    ensures FinalRemaining(r) == r - TICK_MILLIS * |TickValues(r)|
    ensures FinalRemaining(r) == 0 <==> r % TICK_MILLIS == 0
  {
    if r > TICK_MILLIS {
      FinalRemainingRange(r - TICK_MILLIS);
    }
  }

  /** For a value the loop can produce, Kotlin's truncating `%` and `/`
      agree with the mathematical ones: a minute update is posted exactly when
      the value is a whole number of minutes, for that many minutes. */
  lemma MinuteNoticeWhen(v: int)
    requires v > -TICK_MILLIS
    ensures MinuteNotice(v) == if v % MINUTE_MILLIS == 0 then [MinutesLeft(NOTIFICATION_ID, v / MINUTE_MILLIS)] else []
  {
  }

  /** Concatenating tick values concatenates what they post. */
  lemma {:induction false} MinuteNoticesAppend(a: seq<int>, b: seq<int>)
    ensures MinuteNotices(a + b) == MinuteNotices(a) + MinuteNotices(b)
  {
    if a != [] {
      assert (a + b)[0] == a[0];
      assert (a + b)[1..] == a[1..] + b;
      MinuteNoticesAppend(a[1..], b);
    } else {
      assert a + b == b;
    }
  }

  /** Every notice a run of ticks posts is a minute update under `NOTIFICATION_ID`. */
  lemma {:induction false} MinuteNoticesAreUpdates(vs: seq<int>)
    ensures forall n | n in MinuteNotices(vs) :: n.MinutesLeft? && n.id == NOTIFICATION_ID
  {
    if vs != [] {
      MinuteNoticesAreUpdates(vs[1..]);
    }
  }

  /** `Descending(k)` lists k+1 updates, the i-th saying k-i minutes. */
  lemma {:induction false} DescendingAt(k: nat, i: nat)
    requires i <= k
    ensures |Descending(k)| == k + 1
    ensures Descending(k)[i] == MinutesLeft(NOTIFICATION_ID, k - i)
  {
    if i > 0 {
      DescendingAt(k - 1, i - 1);
    } else if k > 0 {
      DescendingAt(k - 1, 0);
    }
  }

  /** Stepping a whole-second value down by one second moves to the previous
      minute exactly when the value was a whole number of minutes. */
  lemma MinuteIndexStep(v: int)
    requires v > 0 && v % TICK_MILLIS == 0
    ensures (v - TICK_MILLIS) / MINUTE_MILLIS ==
      if v % MINUTE_MILLIS == 0 then v / MINUTE_MILLIS - 1 else v / MINUTE_MILLIS
  {
    var q, r := v / MINUTE_MILLIS, v % MINUTE_MILLIS;
    assert v == MINUTE_MILLIS * q + r;
    assert r % TICK_MILLIS == 0;
  }

  /** A value that is not a whole number of seconds is not a whole number of minutes. */
  lemma OffSecondNotMinute(v: int)
    requires v % TICK_MILLIS != 0
    ensures v % MINUTE_MILLIS != 0
  {
  }

  /** The minute updates of a whole countdown. A whole-second duration `d` posts
      one update for every whole minute from (d - 1000) / 60000 down to 0 (see
      `DescendingAt`); any other duration never hits a whole minute and posts
      none. */
  lemma {:induction false} MinuteNoticesOfRun(d: int)
    requires d > 0
    ensures MinuteNotices(TickValues(d)) ==
      if d % TICK_MILLIS == 0 then Descending((d - TICK_MILLIS) / MINUTE_MILLIS) else []
    decreases d
  {
    var v := d - TICK_MILLIS;
    assert TickValues(d) == [v] + TickValues(v);
    assert MinuteNotices(TickValues(d)) == MinuteNotice(v) + MinuteNotices(TickValues(v)) by {
      assert ([v] + TickValues(v))[0] == v;
      assert ([v] + TickValues(v))[1..] == TickValues(v);
    }
    MinuteNoticeWhen(v);
    if d % TICK_MILLIS != 0 {
      assert v % TICK_MILLIS != 0;
      OffSecondNotMinute(v);
      if v > 0 {
        MinuteNoticesOfRun(v);
      }
    } else if v == 0 {
      assert MinuteNotices(TickValues(d)) == [MinutesLeft(NOTIFICATION_ID, 0)];
    } else {
      MinuteNoticesOfRun(v);
      MinuteIndexStep(v);
      if v % MINUTE_MILLIS == 0 {
        assert v / MINUTE_MILLIS >= 1;
        assert Descending(v / MINUTE_MILLIS) == [MinutesLeft(NOTIFICATION_ID, v / MINUTE_MILLIS)] + Descending(v / MINUTE_MILLIS - 1);
      }
    }
  }

  /** A whole-second countdown's final tick lands on 0 and posts "0 min". */
  lemma LastTickPostsZero(d: int)
    requires d > 0 && d % TICK_MILLIS == 0
    ensures |TickValues(d)| >= 1
    ensures TickValues(d)[|TickValues(d)| - 1] == 0
    ensures MinuteNotice(TickValues(d)[|TickValues(d)| - 1]) == [MinutesLeft(NOTIFICATION_ID, 0)]
  {
    TickValuesLength(d);
    TickValuesAt(d, |TickValues(d)| - 1);
    FinalRemainingRange(d);
  }

  /** A finished run posts its minute updates under `NOTIFICATION_ID` and then
      exactly one "finished" notification, under `FINISHED_ID`, last. */
  lemma RunFinishesOnce(r: int)
    ensures |RunNotices(r)| >= 1 && RunNotices(r)[|RunNotices(r)| - 1] == Finished(FINISHED_ID)
    ensures forall i | 0 <= i < |RunNotices(r)| - 1 ::
      RunNotices(r)[i].MinutesLeft? && RunNotices(r)[i].id == NOTIFICATION_ID
  {
    MinuteNoticesAreUpdates(TickValues(r));
    assert forall i | 0 <= i < |RunNotices(r)| - 1 :: RunNotices(r)[i] in MinuteNotices(TickValues(r));
  }

  /** The worked case of a 1:30 countdown: 90 ticks down to exactly 0, posting
      "1 min", "0 min" and then "finished". */
  lemma NinetySecondRun(d: int)
    requires d == 90_000
    ensures |TickValues(d)| == 90 && FinalRemaining(d) == 0
    ensures RunNotices(d) ==
      [MinutesLeft(NOTIFICATION_ID, 1), MinutesLeft(NOTIFICATION_ID, 0), Finished(FINISHED_ID)]
  {
    assert |TickValues(d)| == 90 by { TickValuesLength(d); }
    assert FinalRemaining(d) == 0 by { FinalRemainingRange(d); }
    calc {
      RunNotices(d);
      MinuteNotices(TickValues(d)) + [Finished(FINISHED_ID)];
      { MinuteNoticesOfRun(d); assert (d - TICK_MILLIS) / MINUTE_MILLIS == 1; }
      Descending(1) + [Finished(FINISHED_ID)];
      [MinutesLeft(NOTIFICATION_ID, 1), MinutesLeft(NOTIFICATION_ID, 0), Finished(FINISHED_ID)];
    }
  }

  // ---------------------------------------------------------------------------
  // What the notification shade shows

  /** Posting `ns` in order onto a shade `m` (id to the notice shown under it):
      each post replaces whatever was shown under the same id. */
  function Post(m: map<int, Notice>, ns: seq<Notice>): map<int, Notice>
    decreases ns
  {
    if ns == [] then m else Post(m[ns[0].id := ns[0]], ns[1..])
  }

  lemma {:induction false} PostAppend(m: map<int, Notice>, a: seq<Notice>, b: seq<Notice>)
    ensures Post(m, a + b) == Post(Post(m, a), b)
    decreases a
  {
    if a != [] {
      assert (a + b)[0] == a[0];
      assert (a + b)[1..] == a[1..] + b;
      PostAppend(m[a[0].id := a[0]], a[1..], b);
    } else {
      assert a + b == b;
    }
  }

  /** The minute updates all share one id, so only the last, "0 min", stays shown. */
  lemma {:induction false} PostDescending(m: map<int, Notice>, k: nat)
    ensures Post(m, Descending(k)) == m[NOTIFICATION_ID := MinutesLeft(NOTIFICATION_ID, 0)]
    decreases k
  {
    if k > 0 {
      PostDescending(m[NOTIFICATION_ID := MinutesLeft(NOTIFICATION_ID, k)], k - 1);
    }
  }

  /** After a whole countdown from `d > 0`, the shade shows the finished notice
      under `FINISHED_ID` and, under `NOTIFICATION_ID`, the single "0 min" update
      for a whole-second duration, or what was there before for any other. */
  lemma ShadeAfterRun(m: map<int, Notice>, d: int)
    requires d > 0
    ensures Post(m, RunNotices(d)) ==
      (if d % TICK_MILLIS == 0 then m[NOTIFICATION_ID := MinutesLeft(NOTIFICATION_ID, 0)] else m)
        [FINISHED_ID := Finished(FINISHED_ID)]
  {
    MinuteNoticesOfRun(d);
    PostAppend(m, MinuteNotices(TickValues(d)), [Finished(FINISHED_ID)]);
    if d % TICK_MILLIS == 0 {
      PostDescending(m, (d - TICK_MILLIS) / MINUTE_MILLIS);
    }
  }

  // ---------------------------------------------------------------------------
  // The service

  class TimerService {
    /** The last START's duration, as read from the intent. */
    var durationMillis: int
    /** The countdown's current value. */
    var remainingMillis: int
    /** Every coroutine `startTimer` has launched, oldest first; the last is `timerJob`. */
    var jobs: seq<JobStatus>
    /** Whether `stopSelf` has been called. */
    var stopRequested: bool
    /** Every notification posted, in order. */
    var log: seq<Notice>

    /** A countdown coroutine is active. */
    predicate Running()
      reads this
    {
      jobs != [] && jobs[|jobs| - 1] == Active
    }

    /** At most one countdown is active; while it is, the value is still positive;
        a countdown that ran to its end left a value in (-1000, 0]. */
    ghost predicate Valid()
      reads this
    {
      && OnlyLatestMayRun(jobs)
      && (Running() ==> remainingMillis > 0)
      && (jobs != [] && jobs[|jobs| - 1] == Completed ==> -TICK_MILLIS < remainingMillis <= 0)
    }

    /** The service as `onCreate` leaves it: no job, nothing posted. */
    constructor ()
      ensures Valid()
      ensures durationMillis == 0 && remainingMillis == 0 && jobs == []
      ensures !stopRequested && log == []
    {
      durationMillis := 0;
      remainingMillis := 0;
      jobs := [];
      stopRequested := false;
      log := [];
    }

    /** `onStartCommand`: post the foreground notification, then dispatch. A START
        records its duration and starts a countdown only when the duration is
        positive; a RESET cancels the countdown and stops the service. */
    method OnStartCommand(intent: Option<Intent>)
      requires Valid()
      modifies this
      ensures Valid()
      ensures log == old(log) + [Starting(NOTIFICATION_ID)]
      ensures match Decode(intent)
        case Start(d) =>
          && durationMillis == d
          && (if d > 0 then remainingMillis == d && jobs == CancelLatest(old(jobs)) + [Active]
              else remainingMillis == old(remainingMillis) && jobs == old(jobs))
          && stopRequested == old(stopRequested)
        case Reset =>
          && jobs == CancelLatest(old(jobs)) && stopRequested
          && durationMillis == old(durationMillis) && remainingMillis == old(remainingMillis)
        case Ignore =>
          && jobs == old(jobs) && stopRequested == old(stopRequested)
          && durationMillis == old(durationMillis) && remainingMillis == old(remainingMillis)
    {
      log := log + [Starting(NOTIFICATION_ID)];
      match Decode(intent)
      case Start(d) =>
        durationMillis := d;
        if durationMillis > 0 {
          StartTimer(durationMillis);
        }
      case Reset =>
        StopTimer();
        StopSelf();
      case Ignore =>
    }

    /** `startTimer`: cancel the previous countdown, then launch a new one from `duration`. */
    method StartTimer(duration: int)
      requires Valid() && duration > 0
      modifies this
      ensures Valid() && Running()
      ensures remainingMillis == duration && jobs == CancelLatest(old(jobs)) + [Active]
      ensures durationMillis == old(durationMillis) && stopRequested == old(stopRequested)
      ensures log == old(log)
    {
      RestartKeepsOneActive(jobs);
      jobs := CancelLatest(jobs);
      remainingMillis := duration;
      jobs := jobs + [Active];
    }

    /** `stopTimer`: cancel the latest countdown; nothing else changes. */
    method StopTimer()
      requires Valid()
      modifies this
      ensures Valid() && !Running()
      ensures jobs == CancelLatest(old(jobs))
      ensures remainingMillis == old(remainingMillis) && durationMillis == old(durationMillis)
      ensures stopRequested == old(stopRequested) && log == old(log)
    {
      jobs := CancelLatest(jobs);
    }

    /** `stopSelf`: ask the system to stop the service. */
    method StopSelf()
      modifies this
      ensures stopRequested
      ensures jobs == old(jobs) && remainingMillis == old(remainingMillis)
      ensures durationMillis == old(durationMillis) && log == old(log)
    {
      stopRequested := true;
    }

    /** `onDestroy`: cancel the countdown. */
    method OnDestroy()
      requires Valid()
      modifies this
      ensures Valid() && !Running()
      ensures jobs == CancelLatest(old(jobs))
      ensures remainingMillis == old(remainingMillis) && durationMillis == old(durationMillis)
      ensures stopRequested == old(stopRequested) && log == old(log)
    {
      StopTimer();
    }

    /** The body of the loop after `delay(1000)`: subtract a second and post a
        minute update when the new value is a whole number of minutes. */
    method TickBody()
      modifies this
      ensures remainingMillis == old(remainingMillis) - TICK_MILLIS
      ensures log == old(log) + MinuteNotice(remainingMillis)
      ensures jobs == old(jobs) && durationMillis == old(durationMillis)
      ensures stopRequested == old(stopRequested)
    {
      remainingMillis := remainingMillis - TICK_MILLIS;
      if Rem(remainingMillis, MINUTE_MILLIS) == 0 {
        var minutesLeft := Quot(remainingMillis, MINUTE_MILLIS);
        log := log + [MinutesLeft(NOTIFICATION_ID, minutesLeft)];
      }
    }

    /** What follows the loop: post the finished notification and stop the
        service; the coroutine has then completed. */
    method Finish()
      requires Running()
      modifies this
      ensures log == old(log) + [Finished(FINISHED_ID)]
      ensures jobs == old(jobs)[..|old(jobs)| - 1] + [Completed] && stopRequested
      ensures remainingMillis == old(remainingMillis) && durationMillis == old(durationMillis)
    {
      log := log + [Finished(FINISHED_ID)];
      jobs := jobs[..|jobs| - 1] + [Completed];
      StopSelf();
    }

    /** One `delay(1000)` of the active countdown, with everything that runs
        before the coroutine next suspends: the tick itself and, when the value
        is no longer positive, the loop's exit. A cancelled countdown never
        ticks, so it never posts the finished notification. */
    method Tick()
      requires Valid() && Running()
      modifies this
      ensures Valid()
      ensures remainingMillis == old(remainingMillis) - TICK_MILLIS
      ensures Running() <==> remainingMillis > 0
      ensures log == old(log) + MinuteNotice(remainingMillis)
        + (if remainingMillis <= 0 then [Finished(FINISHED_ID)] else [])
      ensures jobs == if remainingMillis <= 0 then old(jobs)[..|old(jobs)| - 1] + [Completed] else old(jobs)
      ensures stopRequested == (old(stopRequested) || remainingMillis <= 0)
      ensures durationMillis == old(durationMillis)
    {
      TickBody();
      if remainingMillis <= 0 {
        Finish();
      }
    }

    /** The countdown coroutine left to run with no other command arriving: tick
        until the value is no longer positive, then finish. It ticks once per
        value of `TickValues`, posts `RunNotices` and exits at `FinalRemaining`. */
    method RunToCompletion() returns (ghost ticks: nat)
      requires Valid() && Running()
      modifies this
      ensures Valid() && !Running()
      ensures ticks == |TickValues(old(remainingMillis))|
      ensures remainingMillis == FinalRemaining(old(remainingMillis))
      ensures log == old(log) + RunNotices(old(remainingMillis))
      ensures jobs == old(jobs)[..|old(jobs)| - 1] + [Completed] && stopRequested
      ensures durationMillis == old(durationMillis)
    {
      ghost var start := remainingMillis;
      ticks := 0;
      while remainingMillis > 0
        invariant jobs == old(jobs) && durationMillis == old(durationMillis)
        invariant remainingMillis > -TICK_MILLIS
        invariant ticks + |TickValues(remainingMillis)| == |TickValues(start)|
        invariant FinalRemaining(remainingMillis) == FinalRemaining(start)
        invariant log + MinuteNotices(TickValues(remainingMillis)) == old(log) + MinuteNotices(TickValues(start))
        decreases remainingMillis
      {
        ghost var before := remainingMillis;
        assert MinuteNotices(TickValues(before))
            == MinuteNotice(before - TICK_MILLIS) + MinuteNotices(TickValues(before - TICK_MILLIS)) by {
          MinuteNoticesAppend([before - TICK_MILLIS], TickValues(before - TICK_MILLIS));
        }
        TickBody();
        ticks := ticks + 1;
      }
      assert log == old(log) + MinuteNotices(TickValues(start)) by {
        assert TickValues(remainingMillis) == [];
        assert log + [] == log;
      }
      Finish();
    }
  }
}
