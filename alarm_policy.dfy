/** The alarm policy table: for every waste category either no alarm or an
    alarm trigger, given as a signed number of minutes relative to the start
    (midnight) of the collection day. It is built from the --alarm option. */
module AlarmPolicy {
  import opened Failures
  import opened Text

  /** Unset is the sentinel; the script compares it with `is not`, so no
      offset, not even -1 minute, is ever mistaken for it. */
  datatype Setting = Unset | Offset(minutes: int)

  /** The --alarm option: left out, given without a value, or given a value. */
  datatype AlarmOption = Absent | Bare | Custom(spec: string)

  /** Whether alarms are on, and the table after the option was applied. */
  datatype AlarmConfig = AlarmConfig(enabled: bool, table: map<string, Setting>)

  const MinutesPerDay := 24 * 60

  /** A bare --alarm sets every category to 8h00 after the start of the day. */
  const DefaultOffset := 8 * 60

  /** timedelta keeps its day count within this magnitude. */
  const MaxTimedeltaDays := 999999999

  /** The nine categories the table starts with. */
  const WasteTypes: seq<string> :=
    ["gft", "glas", "kca", "papier", "pd", "pmd", "textiel", "grofvuil", "restafval"]

  function InitialTable(): (t: map<string, Setting>)
    ensures t.Keys == set w | w in WasteTypes
    ensures forall w :: w in t ==> t[w] == Unset
  {
    map w | w in WasteTypes :: Unset
  }

  /** The option value with ':' read as ',' and split on ','. */
  function Tokens(spec: string): seq<string>
  {
    Split(ReplaceChar(spec, ':', ','), ',')
  }

  /** Every ':' and every ',' separates two tokens. */
  lemma TokenCount(spec: string)
    ensures |Tokens(spec)| == multiset(spec)[':'] + multiset(spec)[','] + 1
  {
    ReplaceCharCount(spec, ':', ',');
    SplitCount(ReplaceChar(spec, ':', ','), ',');
  }

  /** The tokens, joined again by ',', are the option value with every ':'
      turned into ','. */
  lemma TokensJoin(spec: string)
    ensures Join(Tokens(spec), ',') == ReplaceChar(spec, ':', ',')
  {
    SplitJoin(ReplaceChar(spec, ':', ','), ',');
  }

  /** "name:time" and "name,time" give the two tokens name and time. */
  lemma TokensOfPair(name: string, sep: char, time: string)
    requires sep == ':' || sep == ','
    requires ':' !in name && ',' !in name && ':' !in time && ',' !in time
    ensures Tokens(name + [sep] + time) == [name, time]
  {
    ReplaceCharConcat(name + [sep], time, ':', ',');
    ReplaceCharConcat(name, [sep], ':', ',');
    ReplaceCharNone(name, ':', ',');
    ReplaceCharNone(time, ':', ',');
    assert ReplaceChar([sep], ':', ',') == [','];
    SplitAfterPiece(name, time, ',');
    SplitNone(time, ',');
  }

  /** timedelta(minutes=m) exists only while -999999999 <= m // 1440 <= 999999999,
      written here without the floor division. */
  predicate InTimedeltaRange(minutes: int)
  {
    -MaxTimedeltaDays * MinutesPerDay <= minutes < (MaxTimedeltaDays + 1) * MinutesPerDay
  }

  /** One time token: an optional '-' (the day before), the hour as int() of
      the first two characters and the minute as int() of the rest, with no
      range check on either. */
  function ParseTime(time: string): Result<int>
  {
    var dayDelta := if |time| > 0 && time[0] == '-' then -1 else 0;
    var rest := if |time| > 0 && time[0] == '-' then time[1..] else time;
    var hour := ParseInt(SliceTo(rest, 2));
    var minute := ParseInt(SliceFrom(rest, 2));
    if hour.Err? then hour
    else if minute.Err? then minute
    else
      var total := dayDelta * MinutesPerDay + hour.value * 60 + minute.value;
      if InTimedeltaRange(total) then Ok(total) else Err(DurationOverflow)
  }

  /** A clock time written HHMM gives hour*60 + minute minutes. Hours above
      23 and minutes above 59 are taken as they are. */
  lemma ParseTimeClock(hh: string, mm: string)
    requires |hh| == 2 && |mm| == 2 && AllDigits(hh) && AllDigits(mm)
    ensures ParseTime(hh + mm) == Ok(DigitsValue(hh) * 60 + DigitsValue(mm))
  {
    var s := hh + mm;
    assert s[0] == hh[0];
    ClockFields(s, hh, mm);
    ParseTimeFields(s, s, 0, DigitsValue(hh), DigitsValue(mm), DigitsValue(hh) * 60 + DigitsValue(mm));
  }

  /** With a leading '-' the same clock time lies one day earlier. */
  lemma ParseTimeClockDayBefore(t: string)
    requires |t| == 5 && t[0] == '-' && AllDigits(t[1..])
    ensures ParseTime(t) == Ok(-MinutesPerDay + DigitsValue(t[1..3]) * 60 + DigitsValue(t[3..]))
  {
    var u := t[1..];
    var hh := u[..2];
    var mm := u[2..];
    assert u == hh + mm;
    assert t[1..3] == hh && t[3..] == mm;
    ClockFields(u, hh, mm);
    ParseTimeFields(t, u, -1, DigitsValue(hh), DigitsValue(mm), -MinutesPerDay + DigitsValue(hh) * 60 + DigitsValue(mm));
  }

  /** A '-' in front of a token that does not start with one moves its
      offset back by one day, unless that leaves the timedelta range. */
  lemma ParseTimeDayBefore(t: string)
    requires |t| == 0 || t[0] != '-'
    ensures ParseTime(t).Ok? && InTimedeltaRange(ParseTime(t).value - MinutesPerDay) ==>
              ParseTime("-" + t) == Ok(ParseTime(t).value - MinutesPerDay)
  {
    var s := "-" + t;
    assert s[0] == '-' && s[1..] == t;
  }

  /** Only the first '-' means the day before: in "--HMM" the second one is
      the sign of the hour that int() reads from "-H", so "--502" is
      -1440 - 300 + 2 minutes. */
  lemma ParseTimeNegativeHour(t: string)
    requires |t| == 5 && t[0] == '-' && t[1] == '-' && IsDigit(t[2]) && AllDigits(t[3..])
    ensures ParseTime(t) == Ok(-MinutesPerDay - DigitValue(t[2]) * 60 + DigitsValue(t[3..]))
  {
    var rest := t[1..];
    assert rest[1] == t[2] && rest[2..] == t[3..];
    NegativeHourFields(rest);
    ParseTimeFields(t, rest, -1, -DigitValue(t[2]), DigitsValue(t[3..]), -MinutesPerDay - DigitValue(t[2]) * 60 + DigitsValue(t[3..]));
  }

  lemma NegativeHourFields(rest: string)
    requires |rest| == 4 && rest[0] == '-' && IsDigit(rest[1]) && AllDigits(rest[2..])
    ensures ParseInt(SliceTo(rest, 2)) == Ok(-DigitValue(rest[1]))
    ensures ParseInt(SliceFrom(rest, 2)) == Ok(DigitsValue(rest[2..]) as int)
    ensures DigitsValue(rest[2..]) <= 99
  {
    var h := [rest[1]];
    assert SliceTo(rest, 2) == "-" + h;
    assert DigitsValue(h) == DigitValue(rest[1]) by {
      assert h[..0] == [];
    }
    ParseIntNegative(h);
    ParseIntDigits(rest[2..]);
    TwoDigitsBound(rest[2..]);
  }

  lemma ClockFields(s: string, hh: string, mm: string)
    requires |hh| == 2 && |mm| == 2 && AllDigits(hh) && AllDigits(mm) && s == hh + mm
    ensures ParseInt(SliceTo(s, 2)) == Ok(DigitsValue(hh) as int)
    ensures ParseInt(SliceFrom(s, 2)) == Ok(DigitsValue(mm) as int)
    ensures DigitsValue(hh) <= 99 && DigitsValue(mm) <= 99
  {
    assert SliceTo(s, 2) == hh && SliceFrom(s, 2) == mm;
    ParseIntDigits(hh);
    ParseIntDigits(mm);
    TwoDigitsBound(hh);
    TwoDigitsBound(mm);
  }

  lemma ParseTimeFields(time: string, rest: string, dayDelta: int, hour: int, minute: int, total: int)
    requires dayDelta == (if |time| > 0 && time[0] == '-' then -1 else 0)
    requires rest == (if |time| > 0 && time[0] == '-' then time[1..] else time)
    requires ParseInt(SliceTo(rest, 2)) == Ok(hour) && ParseInt(SliceFrom(rest, 2)) == Ok(minute)
    requires total == dayDelta * MinutesPerDay + hour * 60 + minute && InTimedeltaRange(total)
    ensures ParseTime(time) == Ok(total)
  {
  }

  lemma TwoDigitsBound(s: string)
    requires |s| == 2 && AllDigits(s)
    ensures DigitsValue(s) <= 99
  {
    var first := s[..1];
    assert first[..0] == [] && first[0] == s[0];
    assert DigitsValue(first) == DigitValue(s[0]) <= 9;
    assert s[..|s| - 1] == first;
  }

  /** The pair at index j of a flat token list. */
  function NameAt(toks: seq<string>, j: int): string
    requires 0 <= j && 2 * j + 1 < |toks|
  {
    toks[2 * j]
  }

  function TimeAt(toks: seq<string>, j: int): string
    requires 0 <= j && 2 * j + 1 < |toks|
  {
    toks[2 * j + 1]
  }

  /** The custom loop: each (waste, time) pair sets table[waste] to the
      offset `read` makes of the time token, and the first time token `read`
      rejects ends the run. The script reads time tokens with ParseTime; the
      loop's properties hold for any reader. */
  function ApplyPairs(t: map<string, Setting>, toks: seq<string>, read: string -> Result<int>): Result<map<string, Setting>>
    requires |toks| % 2 == 0
    decreases |toks|
  {
    if toks == [] then Ok(t)
    else
      var minutes :- read(toks[1]);
      ApplyPairs(t[toks[0] := Offset(minutes)], toks[2..], read)
  }

  /** One pair of the custom loop: its time token is read, then the rest follows. */
  lemma ApplyPairsStep(t: map<string, Setting>, toks: seq<string>, read: string -> Result<int>)
    requires |toks| >= 2 && |toks| % 2 == 0
    ensures read(toks[1]).Err? ==> ApplyPairs(t, toks, read) == Err(read(toks[1]).error)
    ensures read(toks[1]).Ok? ==>
              ApplyPairs(t, toks, read) == ApplyPairs(t[toks[0] := Offset(read(toks[1]).value)], toks[2..], read)
  {
  }

  /** The pair at an even index i of the custom tokens, as the while loop meets it. */
  lemma ApplyPairsAt(t: map<string, Setting>, toks: seq<string>, i: int, read: string -> Result<int>)
    requires 0 <= i < |toks| && i % 2 == 0 && |toks| % 2 == 0
    ensures i + 2 <= |toks| && (i + 2) % 2 == 0 && |toks[i..]| % 2 == 0
    ensures read(toks[i + 1]).Err? ==> ApplyPairs(t, toks[i..], read) == Err(read(toks[i + 1]).error)
    ensures read(toks[i + 1]).Ok? ==>
              ApplyPairs(t, toks[i..], read) == ApplyPairs(t[toks[i] := Offset(read(toks[i + 1]).value)], toks[i + 2..], read)
  {
    assert toks[i..][0] == toks[i] && toks[i..][1] == toks[i + 1];
    assert toks[i..][2..] == toks[i + 2..];
    ApplyPairsStep(t, toks[i..], read);
  }

  /** The custom loop fails exactly when some time token is rejected. */
  lemma {:induction false} ApplyPairsFails(t: map<string, Setting>, toks: seq<string>, read: string -> Result<int>)
    requires |toks| % 2 == 0
    ensures ApplyPairs(t, toks, read).Ok? <==> forall j :: 0 <= j < |toks| / 2 ==> read(TimeAt(toks, j)).Ok?
    decreases |toks|
  {
    if toks != [] {
      var rest := toks[2..];
      assert forall j :: 0 <= j < |rest| / 2 ==> TimeAt(rest, j) == TimeAt(toks, j + 1);
      assert TimeAt(toks, 0) == toks[1];
      if read(toks[1]).Ok? {
        ApplyPairsFails(t[toks[0] := Offset(read(toks[1]).value)], rest, read);
        if forall j :: 0 <= j < |rest| / 2 ==> read(TimeAt(rest, j)).Ok? {
          forall j | 0 <= j < |toks| / 2 ensures read(TimeAt(toks, j)).Ok? {
            if j > 0 { assert TimeAt(rest, j - 1) == TimeAt(toks, j); }
          }
        }
      }
    }
  }

  /** When the custom loop fails, its error is the one some time token gave. */
  lemma {:induction false} ApplyPairsError(t: map<string, Setting>, toks: seq<string>, read: string -> Result<int>)
    requires |toks| % 2 == 0 && ApplyPairs(t, toks, read).Err?
    ensures exists j :: 0 <= j < |toks| / 2 && read(TimeAt(toks, j)) == Err(ApplyPairs(t, toks, read).error)
    decreases |toks|
  {
    var rest := toks[2..];
    assert TimeAt(toks, 0) == toks[1];
    if read(toks[1]).Ok? {
      var t1 := t[toks[0] := Offset(read(toks[1]).value)];
      ApplyPairsError(t1, rest, read);
      var j :| 0 <= j < |rest| / 2 && read(TimeAt(rest, j)) == Err(ApplyPairs(t1, rest, read).error);
      assert TimeAt(rest, j) == TimeAt(toks, j + 1);
    }
  }

  /** The custom loop leaves a category that no pair names as it was: still
      absent, or with its old entry (the sentinel, for the nine categories). */
  lemma {:induction false} ApplyPairsUnnamed(t: map<string, Setting>, toks: seq<string>, read: string -> Result<int>,
                                              result: map<string, Setting>, w: string)
    requires |toks| % 2 == 0 && ApplyPairs(t, toks, read) == Ok(result)
    requires forall j :: 0 <= j < |toks| / 2 ==> NameAt(toks, j) != w
    ensures w in result <==> w in t
    ensures w in t ==> result[w] == t[w]
    decreases |toks|
  {
    if toks != [] {
      var rest := toks[2..];
      assert NameAt(toks, 0) != w;
      forall j | 0 <= j < |rest| / 2 ensures NameAt(rest, j) != w {
        assert NameAt(rest, j) == NameAt(toks, j + 1);
      }
      ApplyPairsUnnamed(t[toks[0] := Offset(read(toks[1]).value)], rest, read, result, w);
    }
  }

  /** The category of a pair that no later pair names gets that pair's offset:
      a later pair for the same category overrides an earlier one. */
  lemma {:induction false} ApplyPairsLastPair(t: map<string, Setting>, toks: seq<string>, read: string -> Result<int>,
                                               result: map<string, Setting>, j: int)
    requires |toks| % 2 == 0 && ApplyPairs(t, toks, read) == Ok(result)
    requires 0 <= j < |toks| / 2
    requires forall k :: j < k < |toks| / 2 ==> NameAt(toks, k) != NameAt(toks, j)
    ensures NameAt(toks, j) in result && result[NameAt(toks, j)].Offset?
    ensures read(TimeAt(toks, j)) == Ok(result[NameAt(toks, j)].minutes)
    decreases |toks|
  {
    var rest := toks[2..];
    var t1 := t[toks[0] := Offset(read(toks[1]).value)];
    if j == 0 {
      forall i | 0 <= i < |rest| / 2 ensures NameAt(rest, i) != toks[0] {
        assert NameAt(rest, i) == NameAt(toks, i + 1);
      }
      ApplyPairsUnnamed(t1, rest, read, result, toks[0]);
    } else {
      forall k | j - 1 < k < |rest| / 2 ensures NameAt(rest, k) != NameAt(rest, j - 1) {
        assert NameAt(rest, k) == NameAt(toks, k + 1);
      }
      assert NameAt(rest, j - 1) == NameAt(toks, j) && TimeAt(rest, j - 1) == TimeAt(toks, j);
      ApplyPairsLastPair(t1, rest, read, result, j - 1);
    }
  }

  /** The bare-option loop: every key of the table gets the 8h00 offset. */
  function DefaultTable(t: map<string, Setting>): map<string, Setting>
  {
    map w | w in t :: Offset(DefaultOffset)
  }

  /** Lines 89-117 of the script as one function of the option. */
  function AlarmSpec(option: AlarmOption): Result<AlarmConfig>
  {
    match option
    case Absent => Ok(AlarmConfig(false, InitialTable()))
    case Bare => Ok(AlarmConfig(true, DefaultTable(InitialTable())))
    case Custom(spec) =>
      var toks := Tokens(spec);
      if |toks| % 2 == 1 then Err(BadAlarmFormat)
      else
        var t :- ApplyPairs(InitialTable(), toks, ParseTime);
        Ok(AlarmConfig(true, t))
  }

  /** Without --alarm nothing is switched on and the table keeps the sentinel everywhere. */
  lemma AlarmAbsent()
    ensures AlarmSpec(Absent).Ok?
    ensures !AlarmSpec(Absent).value.enabled
    ensures forall w :: w in AlarmSpec(Absent).value.table <==> w in WasteTypes
    ensures forall w :: w in AlarmSpec(Absent).value.table ==> AlarmSpec(Absent).value.table[w] == Unset
  {
  }

  /** A bare --alarm gives each of the nine categories, and only those, the 8h00 offset. */
  lemma AlarmBare()
    ensures AlarmSpec(Bare).Ok?
    ensures AlarmSpec(Bare).value.enabled
    ensures forall w :: w in AlarmSpec(Bare).value.table <==> w in WasteTypes
    ensures forall w :: w in AlarmSpec(Bare).value.table ==> AlarmSpec(Bare).value.table[w] == Offset(DefaultOffset)
  {
  }

  /** A value for --alarm is refused exactly when it holds an even number of
      separators (':' or ','), that is an odd number of tokens; otherwise alarms
      are on and the table is the custom loop's result on the initial table. */
  lemma AlarmCustom(spec: string)
    ensures AlarmSpec(Custom(spec)) == Err(BadAlarmFormat) <==>
              (multiset(spec)[':'] + multiset(spec)[',']) % 2 == 0
    ensures AlarmSpec(Custom(spec)).Ok? ==> AlarmSpec(Custom(spec)).value.enabled
    ensures AlarmSpec(Custom(spec)).Ok? ==>
              |Tokens(spec)| % 2 == 0 &&
              ApplyPairs(InitialTable(), Tokens(spec), ParseTime) == Ok(AlarmSpec(Custom(spec)).value.table)
  {
    TokenCount(spec);
    var toks := Tokens(spec);
    if |toks| % 2 == 0 && ApplyPairs(InitialTable(), toks, ParseTime).Err? {
      ApplyPairsError(InitialTable(), toks, ParseTime);
      var j :| 0 <= j < |toks| / 2 && ParseTime(TimeAt(toks, j)) == Err(ApplyPairs(InitialTable(), toks, ParseTime).error);
      ParseTimeError(TimeAt(toks, j));
    }
  }

  /** ParseTime fails only as int() or timedelta() do. */
  lemma ParseTimeError(time: string)
    ensures ParseTime(time).Err? ==> ParseTime(time).error.NotAnInteger? || ParseTime(time).error == DurationOverflow
  {
  }

  /** Lines 89-117 as the script runs them: the flags are set step by step,
      then the table is updated in place by the custom while loop or by the
      loop over all categories. */
  method ConfigureAlarms(option: AlarmOption) returns (r: Result<AlarmConfig>)
    ensures r == AlarmSpec(option)
  {
    var enabled := false;
    var custom: seq<string> := [];
    match option {
      case Custom(spec) =>
        custom := Tokens(spec);
        enabled := true;
      case Bare =>
        enabled := true;
      case Absent =>
    }
    if |custom| % 2 == 1 {
      return Err(BadAlarmFormat);
    }
    if enabled && |custom| > 0 {
      var table := ApplyCustom(InitialTable(), custom);
      r := if table.Ok? then Ok(AlarmConfig(true, table.value)) else Err(table.error);
    } else if enabled {
      var table := ApplyDefault(InitialTable());
      r := Ok(AlarmConfig(true, table));
    } else {
      r := Ok(AlarmConfig(false, InitialTable()));
    }
  }

  /** The while loop of lines 103-114: i steps over the tokens two at a time. */
  method ApplyCustom(initial: map<string, Setting>, custom: seq<string>) returns (r: Result<map<string, Setting>>)
    requires |custom| % 2 == 0
    ensures r == ApplyPairs(initial, custom, ParseTime)
  {
    var table := initial;
    var i := 0;
    while i < |custom|
      invariant 0 <= i <= |custom| && i % 2 == 0
      invariant ApplyPairs(initial, custom, ParseTime) == ApplyPairs(table, custom[i..], ParseTime)
      decreases |custom| - i
    {
      ApplyPairsAt(table, custom, i, ParseTime);
      var waste := custom[i];
      var time := custom[i + 1];
      var minutes := ParseTime(time);
      if minutes.Err? {
        return Err(minutes.error);
      }
      table := table[waste := Offset(minutes.value)];
      i := i + 2;
    }
    assert custom[i..] == [];
    r := Ok(table);
  }

  /** The for loop of lines 116-117: every key gets the 8h00 offset. */
  method ApplyDefault(initial: map<string, Setting>) returns (table: map<string, Setting>)
    requires initial == InitialTable()
    ensures table == DefaultTable(initial)
  {
    table := initial;
    for k := 0 to |WasteTypes|
      invariant table.Keys == initial.Keys
      invariant forall w :: w in table ==> table[w] == if w in WasteTypes[..k] then Offset(DefaultOffset) else Unset
    {
      table := table[WasteTypes[k] := Offset(DefaultOffset)];
    }
    assert WasteTypes[..|WasteTypes|] == WasteTypes;
  }
}
