/** The main activity's own logic: the `MM:SS` rendering of the remaining time
    and the handler that forwards time updates to the view model. */
module Activity {
  import opened Android
  import opened KotlinInts
  import opened ViewModel

  /** The `what` of a time-update message. */
  const MSG_UPDATE_TIME: int := 1

  /** A handler message: its kind and its first integer argument. */
  datatype Message = Message(what: int, arg1: int)

  // ---------------------------------------------------------------------------
  // Decimal text, as `%d` writes it

  predicate IsDigit(c: char) { '0' <= c <= '9' }

  predicate AllDigits(s: string) { forall i | 0 <= i < |s| :: IsDigit(s[i]) }

  function DigitChar(d: int): (c: char)
    requires 0 <= d < 10
    ensures IsDigit(c)
  {
    (48 + d) as char
  }

  function DigitValue(c: char): (d: int)
    requires IsDigit(c)
    ensures 0 <= d < 10
  {
    c as int - 48
  }

  /** The decimal digits of `n`, most significant first, with no leading zero. */
  function Decimal(n: nat): (s: string)
    ensures AllDigits(s) && |s| >= 1
    ensures |s| == 1 <==> n < 10
    ensures n >= 1 ==> s[0] != '0'
    decreases n
  {
    if n < 10 then [DigitChar(n)] else Decimal(n / 10) + [DigitChar(n % 10)]
  }

  /** The number a string of decimal digits denotes; the partner of `Decimal`. */
  function ValueOf(s: string): nat
    requires AllDigits(s)
  {
    if s == [] then 0 else ValueOf(s[..|s| - 1]) * 10 + DigitValue(s[|s| - 1])
  }

  /** `Decimal` and `ValueOf` are inverse: the digits written read back as `n`. */
  lemma {:induction false} ValueOfDecimal(n: nat)
    ensures ValueOf(Decimal(n)) == n
    decreases n
  {
    if n >= 10 {
      var s := Decimal(n);
      assert s[..|s| - 1] == Decimal(n / 10);
      ValueOfDecimal(n / 10);
    }
  }

  /** A leading zero does not change the value. */
  lemma {:induction false} ValueOfLeadingZero(s: string)
    requires AllDigits(s)
    ensures AllDigits("0" + s) && ValueOf("0" + s) == ValueOf(s)
    decreases |s|
  {
    if s != [] {
      assert ("0" + s)[..|"0" + s| - 1] == "0" + s[..|s| - 1];
      ValueOfLeadingZero(s[..|s| - 1]);
    }
  }

  /** `String.format("%02d", n)`: at least two characters, zero-padded after any sign. */
  function Format02(n: int): (s: string)
    ensures |s| >= 2
    ensures n >= 0 ==> AllDigits(s) && ValueOf(s) == n
    ensures 0 <= n < 100 ==> |s| == 2
    ensures n < 0 ==> s[0] == '-' && AllDigits(s[1..]) && ValueOf(s[1..]) == -n
    ensures n >= 0 ==> |s| == 2 || s[0] != '0'
    ensures n < 0 ==> s[1] != '0'
  {
    if n >= 0 then
      ValueOfDecimal(n);
      if |Decimal(n)| >= 2 then Decimal(n)
      else
        ValueOfLeadingZero(Decimal(n));
        "0" + Decimal(n)
    else
      ValueOfDecimal(-n);
      assert ("-" + Decimal(-n))[1..] == Decimal(-n);
      "-" + Decimal(-n)
  }

  // ---------------------------------------------------------------------------
  // TimeDisplay

  /** `(remainingMillis / 1000) / 60`, truncating. */
  function DisplayMinutes(ms: int): int
  {
    Quot(Quot(ms, 1000), 60)
  }

  /** `(remainingMillis / 1000) % 60`, truncating. */
  function DisplaySeconds(ms: int): int
  {
    Rem(Quot(ms, 1000), 60)
  }

  /** The text `TimeDisplay` shows: `"%02d:%02d"` of the minutes and seconds. */
  function TimeDisplay(ms: int): string
  {
    Format02(DisplayMinutes(ms)) + ":" + Format02(DisplaySeconds(ms))
  }

  /** For a non-negative time the seconds field is in 0..59, minutes and seconds
      together give back the whole seconds, and the minutes are the total
      minutes, not reduced modulo 60. */
  lemma DisplaySplit(ms: int)
    requires ms >= 0
    ensures 0 <= DisplaySeconds(ms) <= 59
    ensures DisplayMinutes(ms) * 60 + DisplaySeconds(ms) == ms / 1000
    ensures DisplayMinutes(ms) == ms / 60_000
  {
  }

  /** The sub-second part is dropped: every time in [1000k, 1000k + 999]
      is shown the same. */
  lemma SubSecondTruncated(k: nat, j: int)
    requires 0 <= j < 1000
    ensures DisplayMinutes(1000 * k + j) == DisplayMinutes(1000 * k)
    ensures DisplaySeconds(1000 * k + j) == DisplaySeconds(1000 * k)
    ensures TimeDisplay(1000 * k + j) == TimeDisplay(1000 * k)
  {
    assert (1000 * k + j) / 1000 == k;
    assert (1000 * k) / 1000 == k;
  }

  /** The shown text reads back: two-digit seconds after the last-but-two
      character `:`, and the minutes, at least two digits, before it. */
  lemma TimeDisplayReadsBack(ms: int)
    requires ms >= 0
    ensures var t := TimeDisplay(ms);
      && |t| >= 5 && t[|t| - 3] == ':'
      && AllDigits(t[..|t| - 3]) && ValueOf(t[..|t| - 3]) == DisplayMinutes(ms)
      && AllDigits(t[|t| - 2..]) && ValueOf(t[|t| - 2..]) == DisplaySeconds(ms)
  {
    DisplaySplit(ms);
    var m, s := Format02(DisplayMinutes(ms)), Format02(DisplaySeconds(ms));
    var t := m + ":" + s;
    assert t[..|t| - 3] == m;
    assert t[|t| - 2..] == s;
  }

  /** A picked time survives the trip through the duration and back to the
      display: the minutes and seconds shown are the ones picked. */
  lemma PickerRoundTrip(minutes: int, seconds: int)
    requires 0 <= minutes <= 59 && 0 <= seconds <= 59
    ensures DisplayMinutes(Duration(minutes, seconds)) == minutes
    ensures DisplaySeconds(Duration(minutes, seconds)) == seconds
    ensures TimeDisplay(Duration(minutes, seconds)) == Format02(minutes) + ":" + Format02(seconds)
  {
    PickerDuration(minutes, seconds);
    var d := (minutes * 60 + seconds) * 1000;
    assert d / 1000 == minutes * 60 + seconds;
  }

  /** A negative time less than a second below zero shows as "00:00"; from one
      second below zero the truncating remainder makes the seconds field negative
      and it is shown with its sign. */
  lemma NegativeTimeDisplay(ms: int)
    requires -60_000 < ms < 0
    ensures DisplayMinutes(ms) == 0
    ensures ms > -1000 ==> DisplaySeconds(ms) == 0
    ensures ms <= -1000 ==> DisplaySeconds(ms) == -((-ms) / 1000) < 0 && TimeDisplay(ms)[3] == '-'
  {
  }

  // ---------------------------------------------------------------------------
  // The activity

  class MainActivity {
    /** The activity's own view model. */
    const viewModel: TimerViewModel

    constructor ()
      ensures fresh(viewModel) && viewModel.remainingTime == 0
    {
      viewModel := new TimerViewModel();
    }

    /** `handler.handleMessage`: a time update forwards its argument to the view
        model as the new remaining time; any other message changes nothing. */
    method HandleMessage(msg: Message)
      modifies viewModel
      ensures viewModel.remainingTime ==
        if msg.what == MSG_UPDATE_TIME then msg.arg1 else old(viewModel.remainingTime)
    {
      if msg.what == MSG_UPDATE_TIME {
        var remainingMillis := msg.arg1;
        viewModel.UpdateTime(remainingMillis);
      }
    }
  }
}
