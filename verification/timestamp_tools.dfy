/** The three-field timestamp converter (`TimestampTools` under
    src/components/timestamp). Three text inputs — a datetime-local value,
    Unix seconds and Unix milliseconds — are kept consistent by three React
    effects, each watching one input. The component is modelled as a state
    record, pure change handlers, and a pure reducer that runs the effects
    render after render until no watched input changes. */
module TimestampTools {
  import opened Outcomes
  import opened JsText
  import opened JsDate

  /** The component state. `shown` is the instant that both display strings
      (`toLocaleString` and `toUTCString`) were last formatted from, `None`
      while both are still empty; the locale-dependent text itself is left
      out. The `copied` flag only drives an icon and is left out too. */
  datatype Fields = Fields(date: string, seconds: string, millis: string,
                           shown: Option<int>, error: string)

  const Initial: Fields := Fields("", "", "", None, "")

  const InvalidTimestamp: string := "Invalid timestamp"
  const InvalidMillisecondTimestamp: string := "Invalid millisecond timestamp"

  /** What the user can do: type into one of the three inputs, or press
      "Use Current Time" while the clock reads `now` (ms since the epoch). */
  datatype Event =
    | EditDate(text: string)
    | EditSeconds(text: string)
    | EditMillis(text: string)
    | UseCurrentTime(now: int)

  /** The clock always reads a valid time value. */
  predicate IsValidEvent(e: Event) {
    e.UseCurrentTime? ==> IsTimeValue(e.now)
  }

  /** The date input's `onChange`: set the date, blank both timestamps. */
  function OnDateChange(s: Fields, text: string): (r: Fields)
    ensures r.date == text && r.seconds == "" && r.millis == ""
    ensures r.shown == s.shown && r.error == s.error
  {
    s.(date := text, seconds := "", millis := "")
  }

  /** The seconds input's `onChange`: set the seconds, blank the date and the milliseconds. */
  function OnSecondsChange(s: Fields, text: string): (r: Fields)
    ensures r.seconds == text && r.date == "" && r.millis == ""
    ensures r.shown == s.shown && r.error == s.error
  {
    s.(seconds := text, date := "", millis := "")
  }

  /** The milliseconds input's `onChange`: set the milliseconds, blank the other two. */
  function OnMillisChange(s: Fields, text: string): (r: Fields)
    ensures r.millis == text && r.date == "" && r.seconds == ""
    ensures r.shown == s.shown && r.error == s.error
  {
    s.(millis := text, date := "", seconds := "")
  }

  /** `useCurrentTime`: all three inputs and both displays from one instant,
      and no error. */
  function OnUseCurrentTime(s: Fields, now: int): (r: Fields)
    requires IsTimeValue(now)
    ensures r.date == IsoMinute(now)
    ensures r.shown == Some(now) && r.error == ""
  {
    Fields(IsoMinute(now), IntToString(now / MsPerSecond), IntToString(now), Some(now), "")
  }

  /** Both timestamps that "Use Current Time" writes read back as `now`. */
  lemma UseCurrentTimeReadsBack(s: Fields, now: int)
    requires IsTimeValue(now)
    ensures ParseInt(OnUseCurrentTime(s, now).millis) == Some(now)
    ensures ParseInt(OnUseCurrentTime(s, now).seconds) == Some(now / MsPerSecond)
  {
    IntToStringReadsBack(now);
    IntToStringReadsBack(now / MsPerSecond);
  }

  /** The state right after the event handler, before any effect runs. */
  function Apply(s: Fields, e: Event): Fields
    requires IsValidEvent(e)
  {
    match e
    case EditDate(text) => OnDateChange(s, text)
    case EditSeconds(text) => OnSecondsChange(s, text)
    case EditMillis(text) => OnMillisChange(s, text)
    case UseCurrentTime(now) => OnUseCurrentTime(s, now)
  }

  /** The effect watching `date`. It reads the render snapshot `snap` and
      applies its setters on top of `acc`, the updates already queued in
      this render. A non-empty date that parses as local time overwrites
      both timestamps; one that does not parse (NaN) changes nothing — the
      `catch` is never reached, since `new Date` does not throw. */
  function DateEffect(snap: Fields, acc: Fields, offset: int): (r: Fields)
    ensures r.date == acc.date
    ensures snap.date == "" || ParseLocalDateTime(snap.date, offset).None? ==> r == acc
    ensures snap.date != "" && ParseLocalDateTime(snap.date, offset).Some? ==>
      var ms := ParseLocalDateTime(snap.date, offset).value;
      && ParseInt(r.seconds) == Some(ms / MsPerSecond) && ParseInt(r.millis) == Some(ms)
      && r.shown == Some(ms) && r.error == ""
  {
    if snap.date == "" then acc
    else match ParseLocalDateTime(snap.date, offset)
      case None => acc
      case Some(ms) =>
        IntToStringReadsBack(ms / MsPerSecond);
        IntToStringReadsBack(ms);
        acc.(seconds := IntToString(ms / MsPerSecond), millis := IntToString(ms), shown := Some(ms), error := "")
  }

  /** The effect watching `timestamp`; it acts only while the date is empty.
      A NaN parse changes nothing; an instant outside the time-value range
      makes `toISOString` throw before any setter runs, so only the error is
      set. */
  function SecondsEffect(snap: Fields, acc: Fields): (r: Fields)
    ensures r.seconds == acc.seconds
    ensures snap.date != "" || snap.seconds == "" || ParseInt(snap.seconds).None? ==> r == acc
    ensures snap.date == "" && snap.seconds != "" && ParseInt(snap.seconds).Some? ==>
      var ms := ParseInt(snap.seconds).value * MsPerSecond;
      if IsTimeValue(ms) then r.date == IsoMinute(ms) && ParseInt(r.millis) == Some(ms) && r.shown == Some(ms) && r.error == ""
      else r == acc.(error := InvalidTimestamp)
  {
    if snap.seconds == "" || snap.date != "" then acc
    else match ParseInt(snap.seconds)
      case None => acc
      case Some(n) =>
        var ms := n * MsPerSecond;
        if !IsTimeValue(ms) then acc.(error := InvalidTimestamp)
        else
          IntToStringReadsBack(ms);
          acc.(date := IsoMinute(ms), millis := IntToString(ms), shown := Some(ms), error := "")
  }

  /** The effect watching `timestampMs`; it acts only while both the date
      and the seconds are empty, and floors towards minus infinity. */
  function MillisEffect(snap: Fields, acc: Fields): (r: Fields)
    ensures r.millis == acc.millis
    ensures snap.date != "" || snap.seconds != "" || snap.millis == "" || ParseInt(snap.millis).None? ==> r == acc
    ensures snap.date == "" && snap.seconds == "" && snap.millis != "" && ParseInt(snap.millis).Some? ==>
      var ms := ParseInt(snap.millis).value;
      if IsTimeValue(ms) then
        r.date == IsoMinute(ms) && ParseInt(r.seconds) == Some(ms / MsPerSecond) && r.shown == Some(ms) && r.error == ""
      else r == acc.(error := InvalidMillisecondTimestamp)
  {
    if snap.millis == "" || snap.date != "" || snap.seconds != "" then acc
    else match ParseInt(snap.millis)
      case None => acc
      case Some(ms) =>
        if !IsTimeValue(ms) then acc.(error := InvalidMillisecondTimestamp)
        else
          IntToStringReadsBack(ms / MsPerSecond);
          acc.(date := IsoMinute(ms), seconds := IntToString(ms / MsPerSecond), shown := Some(ms), error := "")
  }

  /** Whether a watched input differs between two renders. */
  predicate DepsChanged(prev: Fields, cur: Fields) {
    prev.date != cur.date || prev.seconds != cur.seconds || prev.millis != cur.millis
  }

  /** One commit: after the render of `cur` (the previous render being
      `prev`), each effect whose input changed runs, in declaration order,
      all reading the snapshot `cur`; their queued updates form the next
      state. */
  function Round(prev: Fields, cur: Fields, offset: int): Fields {
    var a1 := if prev.date != cur.date then DateEffect(cur, cur, offset) else cur;
    var a2 := if prev.seconds != cur.seconds then SecondsEffect(cur, a1) else a1;
    if prev.millis != cur.millis then MillisEffect(cur, a2) else a2
  }

  /** How many more rounds can change a watched input: the emptiness guards
      make a non-empty date final, and only the date effect may run after it. */
  function Rank(prev: Fields, cur: Fields): nat {
    if !DepsChanged(prev, cur) then 0
    else if cur.date != "" && cur.date == prev.date then 1
    else if cur.date != "" then 2
    else 3
  }

  /** Every round that starts with a changed input lowers the rank. */
  lemma RoundLowersRank(prev: Fields, cur: Fields, offset: int)
    requires DepsChanged(prev, cur)
    ensures Rank(cur, Round(prev, cur, offset)) < Rank(prev, cur)
  {
    var next := Round(prev, cur, offset);
    if cur.date != "" {
      assert next.date == cur.date;
      if cur.date == prev.date {
        assert next == cur;
      }
    } else {
      if next.date == "" {
        assert next.seconds == cur.seconds && next.millis == cur.millis;
      }
    }
  }

  /** The outcome of the effect cascade: the final render, the render before
      it, and how many rounds of effects ran. */
  datatype Settled = Settled(last: Fields, state: Fields, rounds: nat)

  /** Runs rounds while a watched input changed. The result is a fixpoint —
      the final render changed no watched input, so no effect runs again —
      reached after at most three rounds. */
  function Settle(prev: Fields, cur: Fields, offset: int): (r: Settled)
    ensures !DepsChanged(r.last, r.state)
    ensures r.rounds <= Rank(prev, cur) <= 3
    decreases Rank(prev, cur)
  {
    if !DepsChanged(prev, cur) then Settled(prev, cur, 0)
    else
      var next := Round(prev, cur, offset);
      RoundLowersRank(prev, cur, offset);
      var r := Settle(cur, next, offset);
      r.(rounds := r.rounds + 1)
  }

  /** A render that changed no watched input is final. */
  lemma SettleQuiet(prev: Fields, cur: Fields, offset: int)
    requires !DepsChanged(prev, cur)
    ensures Settle(prev, cur, offset).state == cur
  {
  }

  /** A render that changed a watched input is followed by one more round. */
  lemma SettleStep(prev: Fields, cur: Fields, offset: int)
    requires DepsChanged(prev, cur)
    ensures Settle(prev, cur, offset).state == Settle(cur, Round(prev, cur, offset), offset).state
  {
  }

  /** A render whose effects change nothing is final. */
  lemma SettleAtFixpoint(prev: Fields, cur: Fields, offset: int)
    requires Round(prev, cur, offset) == cur
    ensures Settle(prev, cur, offset).state == cur
  {
    if DepsChanged(prev, cur) {
      SettleStep(prev, cur, offset);
      SettleQuiet(cur, cur, offset);
    } else {
      SettleQuiet(prev, cur, offset);
    }
  }

  /** The component's response to one user event: the handler, then the
      effect cascade, starting from the settled state `s`. */
  function Dispatch(s: Fields, e: Event, offset: int): Fields
    requires IsValidEvent(e)
  {
    Settle(s, Apply(s, e), offset).state
  }

  /** Once the date is non-empty, only the date effect can act: it runs in
      the first round if the date changed, and its result is final. */
  lemma SettleWithDate(prev: Fields, cur: Fields, offset: int)
    requires cur.date != ""
    ensures Settle(prev, cur, offset).state == if prev.date != cur.date then DateEffect(cur, cur, offset) else cur
  {
    var c1 := if prev.date != cur.date then DateEffect(cur, cur, offset) else cur;
    assert Round(prev, cur, offset) == c1;
    assert Round(cur, c1, offset) == c1;
    if DepsChanged(prev, cur) {
      SettleStep(prev, cur, offset);
      SettleAtFixpoint(cur, c1, offset);
    } else {
      SettleQuiet(prev, cur, offset);
    }
  }

  /** The same, with the date effect spelled out. */
  lemma SettleWithNewDate(prev: Fields, cur: Fields, offset: int)
    requires cur.date != ""
    ensures var r := Settle(prev, cur, offset).state;
      if prev.date == cur.date || ParseLocalDateTime(cur.date, offset).None? then r == cur
      else
        var m := ParseLocalDateTime(cur.date, offset).value;
        r == cur.(seconds := IntToString(m / MsPerSecond), millis := IntToString(m), shown := Some(m), error := "")
  {
    SettleWithDate(prev, cur, offset);
  }

  /** With the date empty, the round after a seconds edit is the seconds
      effect alone. */
  lemma SettleAfterSeconds(prev: Fields, cur: Fields, offset: int)
    requires cur.date == "" && cur.millis == "" && cur.seconds != prev.seconds
    ensures Settle(prev, cur, offset).state == Settle(cur, SecondsEffect(cur, cur), offset).state
  {
    assert Round(prev, cur, offset) == SecondsEffect(cur, cur);
    SettleStep(prev, cur, offset);
  }

  /** With the date and the seconds empty, the round after a milliseconds
      edit is the milliseconds effect alone. */
  lemma SettleAfterMillis(prev: Fields, cur: Fields, offset: int)
    requires cur.date == "" && cur.seconds == "" && cur.millis != prev.millis
    ensures Settle(prev, cur, offset).state == Settle(cur, MillisEffect(cur, cur), offset).state
  {
    assert Round(prev, cur, offset) == MillisEffect(cur, cur);
    SettleStep(prev, cur, offset);
  }

  /** A timestamp effect either leaves the date empty, and then no watched
      input changed, or fills it, and then the date effect reads it back. */
  lemma SettleAfterTimestamp(prev: Fields, cur: Fields, offset: int)
    requires prev.date == ""
    requires cur.date == "" ==> cur.seconds == prev.seconds && cur.millis == prev.millis
    ensures Settle(prev, cur, offset).state == if cur.date == "" then cur else DateEffect(cur, cur, offset)
  {
    if cur.date == "" {
      SettleQuiet(prev, cur, offset);
    } else {
      SettleWithDate(prev, cur, offset);
    }
  }

  /** Editing the date (the input's `onChange` fires only on a change):
      an empty or unreadable date leaves both timestamps blank; a readable
      one fills them with the instant it denotes, after one round. */
  lemma DateEditSettles(s: Fields, text: string, offset: int)
    requires text != s.date
    ensures var r := Dispatch(s, EditDate(text), offset);
      if text == "" || ParseLocalDateTime(text, offset).None? then r == OnDateChange(s, text)
      else
        var ms := ParseLocalDateTime(text, offset).value;
        r == Fields(text, IntToString(ms / MsPerSecond), IntToString(ms), Some(ms), "")
  {
    var c0 := OnDateChange(s, text);
    if text == "" {
      assert Round(s, c0, offset) == c0;
      SettleAtFixpoint(s, c0, offset);
    } else {
      SettleWithDate(s, c0, offset);
    }
  }

  /** Editing the seconds: a NaN leaves the other inputs blank, a value
      outside the time-value range only sets the error, and a valid one
      fills the date with its UTC minute. That date is then read back as
      local time; when it parses, the timestamps are overwritten with what
      it denotes, otherwise they keep the typed instant. */
  lemma SecondsEditSettles(s: Fields, text: string, offset: int)
    requires text != s.seconds
    ensures var r := Dispatch(s, EditSeconds(text), offset);
      if text == "" || ParseInt(text).None? then r == OnSecondsChange(s, text)
      else
        var ms := ParseInt(text).value * MsPerSecond;
        if !IsTimeValue(ms) then r == OnSecondsChange(s, text).(error := InvalidTimestamp)
        else match ParseLocalDateTime(IsoMinute(ms), offset)
          case None => r == Fields(IsoMinute(ms), text, IntToString(ms), Some(ms), "")
          case Some(m) => r == Fields(IsoMinute(ms), IntToString(m / MsPerSecond), IntToString(m), Some(m), "")
  {
    var c0 := OnSecondsChange(s, text);
    assert Apply(s, EditSeconds(text)) == c0;
    SettleAfterSeconds(s, c0, offset);
    assert Dispatch(s, EditSeconds(text), offset) == Settle(s, c0, offset).state;
    SettleAfterTimestamp(c0, SecondsEffect(c0, c0), offset);
  }

  /** Editing the milliseconds: the same as for the seconds, one level down
      the priority order. */
  lemma MillisEditSettles(s: Fields, text: string, offset: int)
    requires text != s.millis
    ensures var r := Dispatch(s, EditMillis(text), offset);
      if text == "" || ParseInt(text).None? then r == OnMillisChange(s, text)
      else
        var ms := ParseInt(text).value;
        if !IsTimeValue(ms) then r == OnMillisChange(s, text).(error := InvalidMillisecondTimestamp)
        else match ParseLocalDateTime(IsoMinute(ms), offset)
          case None => r == Fields(IsoMinute(ms), IntToString(ms / MsPerSecond), text, Some(ms), "")
          case Some(m) => r == Fields(IsoMinute(ms), IntToString(m / MsPerSecond), IntToString(m), Some(m), "")
  {
    var c0 := OnMillisChange(s, text);
    assert Apply(s, EditMillis(text)) == c0;
    SettleAfterMillis(s, c0, offset);
    assert Dispatch(s, EditMillis(text), offset) == Settle(s, c0, offset).state;
    SettleAfterTimestamp(c0, MillisEffect(c0, c0), offset);
  }

  /** "Use Current Time": the date input gets the UTC minute of `now`, which
      the date effect then reads back as local time and lets overwrite the
      exact instant, unless the date did not change (a second press within
      the same minute), in which case no effect runs. */
  lemma UseCurrentTimeSettles(s: Fields, now: int, offset: int)
    requires IsTimeValue(now)
    ensures var r := Dispatch(s, UseCurrentTime(now), offset);
      if s.date == IsoMinute(now) || ParseLocalDateTime(IsoMinute(now), offset).None? then
        r == OnUseCurrentTime(s, now)
      else
        var m := ParseLocalDateTime(IsoMinute(now), offset).value;
        r == Fields(IsoMinute(now), IntToString(m / MsPerSecond), IntToString(m), Some(m), "")
  {
    DispatchUseCurrentTime(s, now, offset);
    SettleOnDate(s, OnUseCurrentTime(s, now), IsoMinute(now), offset);
  }

  /** "Use Current Time" writes its fields, then the effects settle. */
  lemma DispatchUseCurrentTime(s: Fields, now: int, offset: int)
    requires IsTimeValue(now)
    ensures Dispatch(s, UseCurrentTime(now), offset) == Settle(s, OnUseCurrentTime(s, now), offset).state
  {
    var e := UseCurrentTime(now);
    assert Apply(s, e) == OnUseCurrentTime(s, now);
    assert Dispatch(s, e, offset) == Settle(s, Apply(s, e), offset).state;
  }

  /** `SettleWithNewDate` for a render whose date is `date`. */
  lemma SettleOnDate(prev: Fields, cur: Fields, date: string, offset: int)
    requires cur.date == date && date != ""
    ensures var r := Settle(prev, cur, offset).state;
      if prev.date == date || ParseLocalDateTime(date, offset).None? then r == cur
      else
        var m := ParseLocalDateTime(date, offset).value;
        r == Fields(date, IntToString(m / MsPerSecond), IntToString(m), Some(m), "")
  {
    SettleWithNewDate(prev, cur, offset);
  }

  /** The case of `SecondsEditSettles` where the UTC minute reads back. */
  lemma SecondsEditReadsBack(s: Fields, text: string, offset: int, ms: int, m: int)
    requires text != s.seconds && text != "" && ParseInt(text).Some? && ms == ParseInt(text).value * MsPerSecond
    requires IsTimeValue(ms) && ParseLocalDateTime(IsoMinute(ms), offset) == Some(m)
    ensures Dispatch(s, EditSeconds(text), offset) == Fields(IsoMinute(ms), IntToString(m / MsPerSecond), IntToString(m), Some(m), "")
  {
    SecondsEditSettles(s, text, offset);
  }

  /** A valid seconds value in a four-digit year settles on `m`, the start
      of its UTC minute shifted back by the offset: the date text is the UTC
      minute but is read back as local time. */
  lemma SecondsEditShiftsByOffset(s: Fields, text: string, offset: int, n: int, ms: int, m: int)
    requires text != s.seconds && text != "" && ParseInt(text) == Some(n) && ms == n * MsPerSecond
    requires IsTimeValue(ms) && 0 <= ToDateTime(ms).year <= 9999
    requires m == ms - ms % MsPerMinute - offset && IsTimeValue(m)
    ensures Dispatch(s, EditSeconds(text), offset)
      == Fields(IsoMinute(ms), IntToString(m / MsPerSecond), IntToString(m), Some(m), "")
  {
    IsoMinuteReadsBackAt(ms, offset, m);
    SecondsEditReadsBack(s, text, offset, ms, m);
  }

  lemma MinuteStartOfSeconds(n: int, ms: int)
    requires ms == n * MsPerSecond
    ensures ms - ms % MsPerMinute == (n - n % 60) * MsPerSecond
  {
    var q, r := n / 60, n % 60;
    MinuteRemainder(ms, q, r * MsPerSecond);
  }

  lemma MinuteRemainder(t: int, q: int, r: int)
    requires t == MsPerMinute * q + r && 0 <= r < MsPerMinute
    ensures t % MsPerMinute == r
  {
  }

  /** With local time equal to UTC, a seconds value `n` settles on the
      start of its minute, `k`: the seconds within the minute are dropped. */
  lemma SecondsEditAtUtcDropsSeconds(s: Fields, text: string, n: int, ms: int, k: int)
    requires text != s.seconds && text != "" && ParseInt(text) == Some(n) && ms == n * MsPerSecond
    requires IsTimeValue(ms) && 0 <= ToDateTime(ms).year <= 9999
    requires k == n - n % 60
    ensures Dispatch(s, EditSeconds(text), 0)
      == Fields(IsoMinute(ms), IntToString(k), IntToString(k * MsPerSecond), Some(k * MsPerSecond), "")
  {
    var m := k * MsPerSecond;
    assert m / MsPerSecond == k;
    MinuteStartOfSeconds(n, ms);
    SecondsEditShiftsByOffset(s, text, 0, n, ms, m);
  }

  /** A worked case: typing 65 seconds with local time equal to UTC
      settles on 60 seconds, that is 1970-01-01T00:01. */
  lemma SixtyFiveSecondsSettleOnSixty()
    ensures var r := Dispatch(Initial, EditSeconds("65"), 0);
      r.seconds == "60" && r.millis == "60000" && r.shown == Some(60000) && r.error == ""
  {
    SixtyFiveSeconds(Initial, "65", "60", "60000", 65, 60);
  }

  /** `SixtyFiveSecondsSettleOnSixty` with its values as parameters. */
  lemma SixtyFiveSeconds(s: Fields, text: string, sec: string, milli: string, n: int, k: int)
    requires s == Initial && n == 65 && k == 60
    requires |text| == 2 && text[0] == '6' && text[1] == '5'
    requires |sec| == 2 && sec[0] == '6' && sec[1] == '0'
    requires milli == sec + "000"
    ensures var r := Dispatch(s, EditSeconds(text), 0);
      r.seconds == sec && r.millis == milli && r.shown == Some(k * MsPerSecond) && r.error == ""
  {
    SixtyFiveSettles(s, text, n, k);
    SixtyRendering(k, sec, milli);
  }

  lemma SixtyFiveSettles(s: Fields, text: string, n: int, k: int)
    requires s == Initial && n == 65 && k == 60
    requires |text| == 2 && text[0] == '6' && text[1] == '5'
    ensures var r := Dispatch(s, EditSeconds(text), 0);
      r.seconds == IntToString(k) && r.millis == IntToString(k * MsPerSecond)
      && r.shown == Some(k * MsPerSecond) && r.error == ""
  {
    ReadsTwoDigits(text, n);
    SecondsEditOnFirstDay(s, text, n, k);
  }

  /** 60 seconds read "60", and as milliseconds "60000". */
  lemma SixtyRendering(k: int, sec: string, milli: string)
    requires k == 60 && |sec| == 2 && sec[0] == '6' && sec[1] == '0'
    requires milli == sec + "000"
    ensures IntToString(k) == sec && IntToString(k * MsPerSecond) == milli
  {
    TwoDigitsRendering(k, sec);
    TrailingZero(k);
    TrailingZero(10 * k);
    TrailingZero(100 * k);
    assert k * MsPerSecond == 10 * (10 * (10 * k));
    assert milli == sec + "0" + "0" + "0";
  }

  /** `SecondsEditAtUtcDropsSeconds` for a seconds value within the first
      day of the epoch. */
  lemma SecondsEditOnFirstDay(s: Fields, text: string, n: int, k: int)
    requires text != s.seconds && text != "" && ParseInt(text) == Some(n)
    requires 0 <= n < 86400 && k == n - n % 60
    ensures var r := Dispatch(s, EditSeconds(text), 0);
      r.seconds == IntToString(k) && r.millis == IntToString(k * MsPerSecond)
      && r.shown == Some(k * MsPerSecond) && r.error == ""
  {
    var ms := n * MsPerSecond;
    YearOfFirstDay(ms);
    SecondsEditAtUtcDropsSeconds(s, text, n, ms, k);
  }

  lemma ReadsTwoDigits(text: string, n: int)
    requires |text| == 2 && IsDigit(text[0]) && IsDigit(text[1])
    requires n == 10 * DigitValue(text[0]) + DigitValue(text[1])
    ensures ParseInt(text) == Some(n)
  {
    TwoDigitsValue(text);
    ReadsDigits(text, n);
  }

  lemma ReadsDigits(text: string, n: int)
    requires |text| > 0 && AllDigits(text) && n == DigitsValue(text)
    ensures ParseInt(text) == Some(n)
  {
    ParseIntOfDigits(text);
  }

  lemma TwoDigitsValue(text: string)
    requires |text| == 2 && IsDigit(text[0]) && IsDigit(text[1])
    ensures AllDigits(text) && DigitsValue(text) == 10 * DigitValue(text[0]) + DigitValue(text[1])
  {
    var head := text[..1];
    assert |head| == 1 && head[0] == text[0] && head[..0] == [];
    assert DigitsValue(head) == DigitValue(text[0]);
    assert text[..|text| - 1] == head;
  }

  /** The rendering of a two-digit number is its two digits. */
  lemma TwoDigitsRendering(k: int, sec: string)
    requires 10 <= k < 100 && |sec| == 2 && sec[0] == DigitChar(k / 10) && sec[1] == DigitChar(k % 10)
    ensures IntToString(k) == sec
  {
    assert NatToString(k / 10) == [sec[0]];
  }

  /** Multiplying by ten appends a zero to the rendering. */
  lemma TrailingZero(x: int)
    requires x > 0
    ensures IntToString(10 * x) == IntToString(x) + "0"
  {
    assert (10 * x) / 10 == x && (10 * x) % 10 == 0;
  }

  /** Instants within the first day of the epoch fall in 1970. */
  lemma YearOfFirstDay(t: int)
    requires 0 <= t < MsPerDay
    ensures IsTimeValue(t) && ToDateTime(t).year == 1970
  {
    assert t / MsPerDay == 0;
    YearFromDayUnique(0, 1970);
  }

  /** The case of `MillisEditSettles` where the UTC minute reads back. */
  lemma MillisEditReadsBack(s: Fields, text: string, offset: int, ms: int, m: int)
    requires text != s.millis && text != "" && ParseInt(text) == Some(ms)
    requires IsTimeValue(ms) && ParseLocalDateTime(IsoMinute(ms), offset) == Some(m)
    ensures Dispatch(s, EditMillis(text), offset) == Fields(IsoMinute(ms), IntToString(m / MsPerSecond), IntToString(m), Some(m), "")
  {
    MillisEditSettles(s, text, offset);
  }

  /** The same for a milliseconds value. */
  lemma MillisEditShiftsByOffset(s: Fields, text: string, offset: int, ms: int, m: int)
    requires text != s.millis && text != "" && ParseInt(text) == Some(ms)
    requires IsTimeValue(ms) && 0 <= ToDateTime(ms).year <= 9999
    requires m == ms - ms % MsPerMinute - offset && IsTimeValue(m)
    ensures Dispatch(s, EditMillis(text), offset)
      == Fields(IsoMinute(ms), IntToString(m / MsPerSecond), IntToString(m), Some(m), "")
  {
    IsoMinuteReadsBackAt(ms, offset, m);
    MillisEditReadsBack(s, text, offset, ms, m);
  }
}
