/** The two-field timestamp converter (`TimestampTools` under
    src/components/encoding): a datetime-local value and Unix seconds, kept
    consistent by two React effects. The same reduction as the three-field
    converter: pure change handlers, then effects run render after render
    until no watched input changes. */
module EncodingTimestampTools {
  import opened Outcomes
  import opened JsText
  import opened JsDate

  /** The component state; the `copied` flag only drives an icon and is
      left out. */
  datatype Fields = Fields(date: string, seconds: string, error: string)

  const Initial: Fields := Fields("", "", "")

  const InvalidTimestamp: string := "Invalid timestamp"

  datatype Event =
    | EditDate(text: string)
    | EditSeconds(text: string)
    | UseCurrentTime(now: int)

  /** The clock always reads a valid time value. */
  predicate IsValidEvent(e: Event) {
    e.UseCurrentTime? ==> IsTimeValue(e.now)
  }

  /** The date input's `onChange`: set the date, blank the timestamp. */
  function OnDateChange(s: Fields, text: string): (r: Fields)
    ensures r.date == text && r.seconds == "" && r.error == s.error
  {
    s.(date := text, seconds := "")
  }

  /** The timestamp input's `onChange`: set the timestamp, blank the date. */
  function OnSecondsChange(s: Fields, text: string): (r: Fields)
    ensures r.seconds == text && r.date == "" && r.error == s.error
  {
    s.(seconds := text, date := "")
  }

  /** `useCurrentTime`: the UTC minute and the whole seconds of one instant. */
  function OnUseCurrentTime(s: Fields, now: int): (r: Fields)
    requires IsTimeValue(now)
    ensures r.date == IsoMinute(now) && r.error == ""
  {
    Fields(IsoMinute(now), IntToString(now / MsPerSecond), "")
  }

  /** The timestamp that "Use Current Time" writes reads back as the whole
      seconds of `now`. */
  lemma UseCurrentTimeReadsBack(s: Fields, now: int)
    requires IsTimeValue(now)
    ensures ParseInt(OnUseCurrentTime(s, now).seconds) == Some(now / MsPerSecond)
  {
    IntToStringReadsBack(now / MsPerSecond);
  }

  function Apply(s: Fields, e: Event): Fields
    requires IsValidEvent(e)
  {
    match e
    case EditDate(text) => OnDateChange(s, text)
    case EditSeconds(text) => OnSecondsChange(s, text)
    case UseCurrentTime(now) => OnUseCurrentTime(s, now)
  }

  /** The effect watching `date`: a date that parses as local time sets the
      timestamp to its whole seconds; one that does not changes nothing. */
  function DateEffect(snap: Fields, acc: Fields, offset: int): (r: Fields)
    ensures r.date == acc.date
    ensures snap.date == "" || ParseLocalDateTime(snap.date, offset).None? ==> r == acc
    ensures snap.date != "" && ParseLocalDateTime(snap.date, offset).Some? ==>
      ParseInt(r.seconds) == Some(ParseLocalDateTime(snap.date, offset).value / MsPerSecond) && r.error == ""
  {
    if snap.date == "" then acc
    else match ParseLocalDateTime(snap.date, offset)
      case None => acc
      case Some(ms) =>
        IntToStringReadsBack(ms / MsPerSecond);
        acc.(seconds := IntToString(ms / MsPerSecond), error := "")
  }

  /** The effect watching `timestamp`, acting only while the date is empty:
      a valid timestamp sets the date to its UTC minute, one outside the
      time-value range makes `toISOString` throw and sets the error. */
  function SecondsEffect(snap: Fields, acc: Fields): (r: Fields)
    ensures r.seconds == acc.seconds
    ensures snap.date != "" || snap.seconds == "" || ParseInt(snap.seconds).None? ==> r == acc
    ensures snap.date == "" && snap.seconds != "" && ParseInt(snap.seconds).Some? ==>
      var ms := ParseInt(snap.seconds).value * MsPerSecond;
      if IsTimeValue(ms) then r.date == IsoMinute(ms) && r.error == ""
      else r == acc.(error := InvalidTimestamp)
  {
    if snap.seconds == "" || snap.date != "" then acc
    else match ParseInt(snap.seconds)
      case None => acc
      case Some(n) =>
        var ms := n * MsPerSecond;
        if !IsTimeValue(ms) then acc.(error := InvalidTimestamp)
        else acc.(date := IsoMinute(ms), error := "")
  }

  predicate DepsChanged(prev: Fields, cur: Fields) {
    prev.date != cur.date || prev.seconds != cur.seconds
  }

  /** One commit: each effect whose input changed runs, in declaration
      order, reading the snapshot `cur`. */
  function Round(prev: Fields, cur: Fields, offset: int): Fields {
    var a1 := if prev.date != cur.date then DateEffect(cur, cur, offset) else cur;
    if prev.seconds != cur.seconds then SecondsEffect(cur, a1) else a1
  }

  /** How many more rounds can change a watched input. */
  function Rank(prev: Fields, cur: Fields): nat {
    if !DepsChanged(prev, cur) then 0
    else if cur.date != "" && cur.date == prev.date then 1
    else if cur.date != "" then 2
    else 3
  }

  lemma RoundLowersRank(prev: Fields, cur: Fields, offset: int)
    requires DepsChanged(prev, cur)
    ensures Rank(cur, Round(prev, cur, offset)) < Rank(prev, cur)
  {
    var next := Round(prev, cur, offset);
    if cur.date != "" {
      assert next.date == cur.date;
      if cur.date == prev.date {
        assert next == cur;
      }
    } else if next.date == "" {
      assert next.seconds == cur.seconds;
    }
  }

  datatype Settled = Settled(last: Fields, state: Fields, rounds: nat)

  /** Runs rounds while a watched input changed; ends at a fixpoint after at
      most three rounds. */
  function Settle(prev: Fields, cur: Fields, offset: int): (r: Settled)
    ensures !DepsChanged(r.last, r.state)
    ensures r.rounds <= Rank(prev, cur) <= 3
    decreases Rank(prev, cur)
  {
    if !DepsChanged(prev, cur) then Settled(prev, cur, 0)
    else
      var next := Round(prev, cur, offset);
      RoundLowersRank(prev, cur, offset);
      var r := Settle(cur, next, offset);
      r.(rounds := r.rounds + 1)
  }

  /** A render that changed no watched input is final. */
  lemma SettleQuiet(prev: Fields, cur: Fields, offset: int)
    requires !DepsChanged(prev, cur)
    ensures Settle(prev, cur, offset).state == cur
  {
  }

  /** A render that changed a watched input is followed by one more round. */
  lemma SettleStep(prev: Fields, cur: Fields, offset: int)
    requires DepsChanged(prev, cur)
    ensures Settle(prev, cur, offset).state == Settle(cur, Round(prev, cur, offset), offset).state
  {
  }

  /** A render whose effects change nothing is final. */
  lemma SettleAtFixpoint(prev: Fields, cur: Fields, offset: int)
    requires Round(prev, cur, offset) == cur
    ensures Settle(prev, cur, offset).state == cur
  {
    if DepsChanged(prev, cur) {
      SettleStep(prev, cur, offset);
      SettleQuiet(cur, cur, offset);
    } else {
      SettleQuiet(prev, cur, offset);
    }
  }

  function Dispatch(s: Fields, e: Event, offset: int): Fields
    requires IsValidEvent(e)
  {
    Settle(s, Apply(s, e), offset).state
  }

  /** Editing the date: an empty or unreadable date leaves the timestamp
      blank, a readable one fills it with the whole seconds it denotes. */
  lemma DateEditSettles(s: Fields, text: string, offset: int)
    requires text != s.date
    ensures var r := Dispatch(s, EditDate(text), offset);
      if text == "" || ParseLocalDateTime(text, offset).None? then r == OnDateChange(s, text)
      else r == Fields(text, IntToString(ParseLocalDateTime(text, offset).value / MsPerSecond), "")
  {
    var c0 := OnDateChange(s, text);
    var c1 := Round(s, c0, offset);
    assert c1 == DateEffect(c0, c0, offset);
    assert Settle(s, c0, offset).state == Settle(c0, c1, offset).state;
    if c1 != c0 {
      assert Round(c0, c1, offset) == c1;
      assert Settle(c0, c1, offset).state == Settle(c1, c1, offset).state;
    }
  }

  /** Editing the timestamp: a NaN leaves the date blank, a value outside
      the time-value range sets the error, and a valid one fills the date
      with its UTC minute, which is then read back as local time and, when
      it parses, overwrites the timestamp with the seconds it denotes. */
  lemma SecondsEditSettles(s: Fields, text: string, offset: int)
    requires text != s.seconds
    ensures var r := Dispatch(s, EditSeconds(text), offset);
      if text == "" || ParseInt(text).None? then r == OnSecondsChange(s, text)
      else
        var ms := ParseInt(text).value * MsPerSecond;
        if !IsTimeValue(ms) then r == OnSecondsChange(s, text).(error := InvalidTimestamp)
        else match ParseLocalDateTime(IsoMinute(ms), offset)
          case None => r == Fields(IsoMinute(ms), text, "")
          case Some(m) => r == Fields(IsoMinute(ms), IntToString(m / MsPerSecond), "")
  {
    var c0 := OnSecondsChange(s, text);
    var c1 := Round(s, c0, offset);
    assert c1 == SecondsEffect(c0, c0);
    assert Settle(s, c0, offset).state == Settle(c0, c1, offset).state;
    if DepsChanged(c0, c1) {
      var c2 := Round(c0, c1, offset);
      assert c2 == DateEffect(c1, c1, offset);
      assert Settle(c0, c1, offset).state == Settle(c1, c2, offset).state;
      if DepsChanged(c1, c2) {
        assert Round(c1, c2, offset) == c2;
        assert Settle(c1, c2, offset).state == Settle(c2, c2, offset).state;
      }
    }
  }

  /** The case of `SecondsEditSettles` where the UTC minute reads back. */
  lemma SecondsEditReadsBack(s: Fields, text: string, offset: int, ms: int, m: int)
    requires text != s.seconds && text != "" && ParseInt(text).Some? && ms == ParseInt(text).value * MsPerSecond
    requires IsTimeValue(ms) && ParseLocalDateTime(IsoMinute(ms), offset) == Some(m)
    ensures Dispatch(s, EditSeconds(text), offset) == Fields(IsoMinute(ms), IntToString(m / MsPerSecond), "")
  {
    SecondsEditSettles(s, text, offset);
  }

  /** A valid timestamp in a four-digit year settles on the whole seconds
      of `m`, the start of its UTC minute shifted back by the offset. */
  lemma SecondsEditShiftsByOffset(s: Fields, text: string, offset: int, n: int, ms: int, m: int)
    requires text != s.seconds && text != "" && ParseInt(text) == Some(n) && ms == n * MsPerSecond
    requires IsTimeValue(ms) && 0 <= ToDateTime(ms).year <= 9999
    requires m == ms - ms % MsPerMinute - offset && IsTimeValue(m)
    ensures Dispatch(s, EditSeconds(text), offset)
      == Fields(IsoMinute(ms), IntToString(m / MsPerSecond), "")
  {
    IsoMinuteReadsBackAt(ms, offset, m);
    SecondsEditReadsBack(s, text, offset, ms, m);
  }

  /** "Use Current Time": unless the date text is unchanged, the date effect
      reads the UTC minute back as local time and overwrites the seconds. */
  lemma UseCurrentTimeSettles(s: Fields, now: int, offset: int)
    requires IsTimeValue(now)
    ensures var r := Dispatch(s, UseCurrentTime(now), offset);
      if s.date == IsoMinute(now) || ParseLocalDateTime(IsoMinute(now), offset).None? then
        r == OnUseCurrentTime(s, now)
      else
        r == Fields(IsoMinute(now), IntToString(ParseLocalDateTime(IsoMinute(now), offset).value / MsPerSecond), "")
  {
    var c0 := OnUseCurrentTime(s, now);
    var c1 := Round(s, c0, offset);
    assert c1 == if s.date != c0.date then DateEffect(c0, c0, offset) else c0;
    if DepsChanged(s, c0) {
      assert Settle(s, c0, offset).state == Settle(c0, c1, offset).state;
      if DepsChanged(c0, c1) {
        assert Round(c0, c1, offset) == c1;
        assert Settle(c0, c1, offset).state == Settle(c1, c1, offset).state;
      }
    }
  }
}
