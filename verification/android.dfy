/** The few pieces of the Android platform that the timer's own logic touches,
    reduced to values: intents with their action and `Long` extras, and the
    `getLong`-with-default lookup shared by intents and shared preferences. */
module Android {

  datatype Option<+T> = None | Some(value: T)

  /** An intent as the timer uses it: an optional action string and its `Long` extras by key. */
  datatype Intent = Intent(action: Option<string>, extras: map<string, int>)

  /** `Intent.getLongExtra(key, default)` and `SharedPreferences.getLong(key, default)`:
      the stored value under `key`, or `default` when there is none. */
  function GetLong(m: map<string, int>, key: string, default: int): int
  {
    if key in m then m[key] else default
  }
}
