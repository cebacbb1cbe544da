/** `sending-toggle`: the global switch that allows or stops outbound sending, kept in
    the single row (id 1) of `autobot_settings`. Reading it fails open. */
module SendingSwitch {
  import opened Wrappers
  import opened Json
  import opened Http

  /** The settings row as stored: missing, or present with a nullable boolean. */
  datatype Setting = NoRow | SettingRow(enabled: Option<bool>)

  /** What the handler makes of a row it could read: a missing row means "on", a
      present one its value coerced to a boolean (`!!`), so a null reads as "off". */
  function StoredValue(setting: Setting): (on: bool)
    ensures setting.NoRow? ==> on
    ensures setting.SettingRow? ==> (on <==> setting.enabled == Some(true))
  {
    match setting
    case NoRow => true
    case SettingRow(v) => v.Some? && v.value
  }

  /** The switch as GET reports it; `readOk` is false when the read returned an error,
      and then the switch counts as on. */
  function CurrentValue(setting: Setting, readOk: bool): (on: bool)
    ensures !readOk ==> on
    ensures !on ==> readOk && (setting == SettingRow(Some(false)) || setting == SettingRow(None))
  {
    if !readOk then true else StoredValue(setting)
  }

  /** The value a POST stores: the request's `enabled` when it is a boolean, otherwise
      the opposite of the current value, where an unreadable row counts as on. */
  function NewValue(enabled: Value, setting: Setting, readOk: bool): (v: bool)
    ensures enabled.JBool? ==> v == enabled.b
    ensures !enabled.JBool? ==> v == !CurrentValue(setting, readOk)
    ensures !enabled.JBool? && !readOk ==> !v
  {
    match enabled
    case JBool(b) => b
    case _ => !CurrentValue(setting, readOk)
  }

  /** A handled request: the response and the settings row left behind. */
  datatype Switched = Switched(response: Response<bool>, setting: Setting)

  /** The `sending-toggle` handler. `enabled` is the request body's field (`JNull` when
      absent); `readOk` says whether reading the row succeeded; `writeError` is the
      upsert's error, if any. A successful upsert reads back the row it wrote, so the
      reported value is the stored one. */
  function SendingToggle(verb: Method, enabled: Value, setting: Setting, readOk: bool, writeError: Option<string>)
    : (s: Switched)
    ensures verb.Get? ==> s == Switched(Success(CurrentValue(setting, readOk)), setting)
    ensures verb.OtherMethod? ==> s == Switched(MethodNotAllowed, setting)
    ensures verb.Post? && writeError.Some? ==> s == Switched(ServerError(writeError.value), setting)
    ensures verb.Post? && writeError.None? ==>
      && s.response == Success(NewValue(enabled, setting, readOk))
      && s.setting == SettingRow(Some(s.response.body))
  {
    match verb
    case Get => Switched(Success(CurrentValue(setting, readOk)), setting)
    case Post =>
      var v := NewValue(enabled, setting, readOk);
      if writeError.Some? then Switched(ServerError(writeError.value), setting)
      else
        var written := SettingRow(Some(v));
        Switched(Success(StoredValue(written)), written)
    case OtherMethod(_) => Switched(MethodNotAllowed, setting)
  }

  /** Setting the switch explicitly twice is the same as setting it once, and what a
      later readable GET reports is the value that was set. */
  lemma ExplicitSetIdempotent(b: bool, setting: Setting, read1: bool, read2: bool)
    ensures var once := SendingToggle(Post, JBool(b), setting, read1, None);
      var twice := SendingToggle(Post, JBool(b), once.setting, read2, None);
      && twice == once
      && SendingToggle(Get, JNull, once.setting, true, None).response == Success(b)
  {
  }

  /** Two toggles in a row with readable rows restore the value GET reported before,
      whether or not the row existed at first. */
  lemma ToggleTwiceRestores(enabled1: Value, enabled2: Value, setting: Setting)
    requires !enabled1.JBool? && !enabled2.JBool?
    ensures var first := SendingToggle(Post, enabled1, setting, true, None);
      var second := SendingToggle(Post, enabled2, first.setting, true, None);
      && first.response == Success(!CurrentValue(setting, true))
      && second.response == Success(CurrentValue(setting, true))
      && CurrentValue(second.setting, true) == CurrentValue(setting, true)
  {
  }

  /** A toggle whose read fails switches sending off, whatever is stored. */
  lemma UnreadableToggleTurnsOff(enabled: Value, setting: Setting)
    requires !enabled.JBool?
    ensures SendingToggle(Post, enabled, setting, false, None) == Switched(Success(false), SettingRow(Some(false)))
  {
  }
}
