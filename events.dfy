/** Lines 136-167 of the script: each waste-info anchor of a selected
    category becomes a calendar event, with an alarm when the table has one. */
module CalendarEvents {
  import opened Failures
  import opened Text
  import opened Dates
  import opened AlarmPolicy
  import opened Arguments
  import opened Extract

  /** A VALARM: its action, its trigger as minutes relative to the event's
      start, and its description. */
  datatype Alarm = Alarm(action: string, trigger: int, description: string)

  /** A VEVENT: from midnight of `start` to midnight of `end`, the next day. */
  datatype Event = Event(uid: string, start: Date, end: Date, summary: string,
                         description: string, transp: string, alarm: Option<Alarm>)

  /** What the loop reads besides the anchors: the selection, the alarm
      configuration and the current year (the default for dates without one). */
  datatype Context = Context(sel: Selection, cfg: AlarmConfig, currentYear: int)

  /** Line 150: year, day of the year and waste type joined by '-'. */
  function Uid(d: Date, waste: string): string
    requires IsValid(d)
  {
    Decimal(d.year) + "-" + Decimal(DayOfYear(d)) + "-" + waste
  }

  /** Two strings without '-' that start a dash-joined text are the same, and so are the rests. */
  lemma DashSplit(x: string, y: string, r1: string, r2: string)
    requires '-' !in x && '-' !in y && x + "-" + r1 == y + "-" + r2
    ensures x == y && r1 == r2
  {
    DashPosition(x, r1, |y|);
    DashPosition(y, r2, |x|);
    var s := x + "-" + r1;
    if |x| == |y| {
      assert x == s[..|x|] == y;
      assert r1 == s[|x| + 1..] == r2;
    }
  }

  /** In x + "-" + r with no '-' in x, the first '-' is at |x|. */
  lemma DashPosition(x: string, r: string, i: int)
    ensures (x + "-" + r)[|x|] == '-'
    ensures '-' !in x && 0 <= i < |x| ==> (x + "-" + r)[i] != '-'
  {
    if 0 <= i < |x| {
      assert (x + "-" + r)[i] == x[i];
    }
  }

  lemma DecimalNoDash(n: nat)
    ensures '-' !in Decimal(n)
  {
  }

  /** Identifiers are equal exactly when the date and the waste type are: the
      year and the day of the year determine a date. */
  lemma UidInjective(a: Date, b: Date, w1: string, w2: string)
    requires IsValid(a) && IsValid(b)
    ensures Uid(a, w1) == Uid(b, w2) <==> a == b && w1 == w2
  {
    if Uid(a, w1) == Uid(b, w2) {
      var ra := Decimal(DayOfYear(a)) + "-" + w1;
      var rb := Decimal(DayOfYear(b)) + "-" + w2;
      UidFields(a, w1);
      UidFields(b, w2);
      DecimalDashSplit(a.year, b.year, ra, rb);
      DecimalDashSplit(DayOfYear(a), DayOfYear(b), w1, w2);
      DayOfYearInjective(a, b);
    }
  }

  /** An identifier is the year, then '-', then the rest. */
  lemma UidFields(d: Date, w: string)
    requires IsValid(d)
    ensures Uid(d, w) == Decimal(d.year) + "-" + (Decimal(DayOfYear(d)) + "-" + w)
  {
  }

  /** A number spelled in front of the first '-' is read back, and so is the rest:
      this reads the year, then the day of the year and the waste type, back from an identifier. */
  lemma DecimalDashSplit(m: nat, n: nat, r1: string, r2: string)
    requires Decimal(m) + "-" + r1 == Decimal(n) + "-" + r2
    ensures m == n && r1 == r2
  {
    DecimalNoDash(m);
    DecimalNoDash(n);
    DashSplit(Decimal(m), Decimal(n), r1, r2);
    DecimalInjective(m, n);
  }

  /** Lines 143-165 for one anchor: None when its waste type is not selected.
      The failures come in the order the statements raise them. */
  function EventFor(a: Anchor, ctx: Context): Result<Option<Event>>
  {
    var waste :- WasteTypeOf(a);
    if !Selected(ctx.sel, ctx.cfg.table, waste) then Ok(None)
    else if a.para.None? then Err(MissingParagraph)
    else
      var date :- ResolveDate(a.para.value.text, ctx.currentYear);
      if a.description.None? then Err(MissingDescription)
      else
        var descr := Unescape(a.description.value);
        var summary := "Afval - " + descr;
        var end :- NextDay(date);
        if waste !in ctx.cfg.table then Err(UnknownAlarmKey(waste))
        else
          var setting := ctx.cfg.table[waste];
          var alarm := if ctx.cfg.enabled && setting.Offset? then Some(Alarm("DISPLAY", setting.minutes, summary)) else None;
          Ok(Some(Event(Uid(date, waste), date, end, summary, descr, "TRANSPARENT", alarm)))
  }

  /** What every event the loop emits satisfies, given its waste type. */
  predicate WellFormed(e: Event, waste: string, cfg: AlarmConfig)
  {
    IsValid(e.start) && NextDay(e.start) == Ok(e.end) &&
    e.uid == Uid(e.start, waste) &&
    e.summary == "Afval - " + e.description && e.transp == "TRANSPARENT" &&
    waste in cfg.table &&
    (e.alarm.Some? <==> cfg.enabled && cfg.table[waste].Offset?) &&
    (e.alarm.Some? ==> e.alarm.value == Alarm("DISPLAY", cfg.table[waste].minutes, e.summary))
  }

  /** An anchor is skipped exactly when its waste type is known and not selected;
      an event it yields is well formed, dated by its paragraph text, and
      described by the unescaped description. */
  lemma EventForShape(a: Anchor, ctx: Context)
    ensures EventFor(a, ctx) == Ok(None) <==>
              WasteTypeOf(a).Ok? && !Selected(ctx.sel, ctx.cfg.table, WasteTypeOf(a).value)
    ensures EventFor(a, ctx).Ok? && EventFor(a, ctx).value.Some? ==>
              var e := EventFor(a, ctx).value.value;
              WasteTypeOf(a).Ok? && Selected(ctx.sel, ctx.cfg.table, WasteTypeOf(a).value) &&
              WellFormed(e, WasteTypeOf(a).value, ctx.cfg) &&
              a.para.Some? && ResolveDate(a.para.value.text, ctx.currentYear) == Ok(e.start) &&
              a.description.Some? && e.description == Unescape(a.description.value)
  {
  }

  /** A selected row whose fields all resolve yields its event: dated by its
      paragraph, described by its unescaped description, alarmed by the table. */
  lemma EventForRow(a: Anchor, ctx: Context, waste: string, date: Date, end: Date, raw: string)
    requires WasteTypeOf(a) == Ok(waste) && Selected(ctx.sel, ctx.cfg.table, waste)
    requires a.para.Some? && ResolveDate(a.para.value.text, ctx.currentYear) == Ok(date)
    requires a.description == Some(raw) && NextDay(date) == Ok(end) && waste in ctx.cfg.table
    ensures IsValid(date)
    ensures EventFor(a, ctx) ==
              Ok(Some(Event(Uid(date, waste), date, end, "Afval - " + Unescape(raw), Unescape(raw), "TRANSPARENT",
                            if ctx.cfg.enabled && ctx.cfg.table[waste].Offset?
                            then Some(Alarm("DISPLAY", ctx.cfg.table[waste].minutes, "Afval - " + Unescape(raw)))
                            else None)))
  {
  }

  /** The table lookup of line 159 runs for every selected row, alarms on or
      off: a listed category outside the table fails the run once the row's
      date and description are good. */
  lemma UnknownKeyFails(a: Anchor, ctx: Context, date: Date)
    requires WasteTypeOf(a).Ok? && Selected(ctx.sel, ctx.cfg.table, WasteTypeOf(a).value)
    requires WasteTypeOf(a).value !in ctx.cfg.table
    requires a.para.Some? && ResolveDate(a.para.value.text, ctx.currentYear) == Ok(date)
    requires a.description.Some? && NextDay(date).Ok?
    ensures EventFor(a, ctx) == Err(UnknownAlarmKey(WasteTypeOf(a).value))
  {
  }

  /** With '*' the lookup cannot fail: a selected type is a key of the table. */
  lemma AllTypesKnownKey(a: Anchor, ctx: Context)
    requires ctx.sel == AllTypes
    ensures EventFor(a, ctx).Err? ==> !EventFor(a, ctx).error.UnknownAlarmKey?
  {
  }

  /** A selected row dated with a month word outside the table ends the run
      with a failure: it is never skipped. */
  lemma UnknownMonthRowFails(a: Anchor, ctx: Context)
    requires WasteTypeOf(a).Ok? && Selected(ctx.sel, ctx.cfg.table, WasteTypeOf(a).value)
    requires a.para.Some? && Search(a.para.value.text, 0).Some?
    requires MonthNumber(Search(a.para.value.text, 0).value.month) == 0
    ensures EventFor(a, ctx).Err?
  {
    UnknownMonthFails(a.para.value.text, ctx.currentYear);
  }

  /** The events of a sequence of anchors, in page order; the first failing
      anchor ends the run with its failure. */
  function Events(anchors: seq<Anchor>, ctx: Context): Result<seq<Event>>
    decreases |anchors|
  {
    if |anchors| == 0 then Ok([])
    else
      var earlier :- Events(anchors[..|anchors| - 1], ctx);
      var e :- EventFor(anchors[|anchors| - 1], ctx);
      Ok(earlier + (if e.Some? then [e.value] else []))
  }

  /** The run fails exactly when some anchor fails, and then with the failure
      of the first one. */
  lemma {:induction false} EventsFail(anchors: seq<Anchor>, ctx: Context)
    ensures Events(anchors, ctx).Err? <==> exists i :: 0 <= i < |anchors| && EventFor(anchors[i], ctx).Err?
    ensures Events(anchors, ctx).Err? ==>
              exists i :: 0 <= i < |anchors| && EventFor(anchors[i], ctx) == Err(Events(anchors, ctx).error) &&
                forall j :: 0 <= j < i ==> EventFor(anchors[j], ctx).Ok?
    decreases |anchors|
  {
    if |anchors| > 0 {
      var init := anchors[..|anchors| - 1];
      EventsFail(init, ctx);
      forall i | 0 <= i < |init| ensures init[i] == anchors[i] { }
    }
  }

  /** An anchor the loop keeps: its waste type resolves and is selected. */
  predicate Selects(a: Anchor, ctx: Context)
  {
    WasteTypeOf(a).Ok? && Selected(ctx.sel, ctx.cfg.table, WasteTypeOf(a).value)
  }

  /** The positions of the selected anchors, in increasing order. */
  function SelectedIndices(anchors: seq<Anchor>, ctx: Context): (r: seq<int>)
    ensures forall k :: 0 <= k < |r| ==> 0 <= r[k] < |anchors| && Selects(anchors[r[k]], ctx)
    ensures forall k, l :: 0 <= k < l < |r| ==> r[k] < r[l]
    ensures forall i :: 0 <= i < |anchors| && Selects(anchors[i], ctx) ==> i in r
    decreases |anchors|
  {
    if |anchors| == 0 then []
    else
      var init := anchors[..|anchors| - 1];
      var earlier := SelectedIndices(init, ctx);
      var here := if Selects(anchors[|anchors| - 1], ctx) then [|anchors| - 1] else [];
      assert forall i :: 0 <= i < |init| ==> init[i] == anchors[i];
      assert forall k :: 0 <= k < |earlier| ==> earlier[k] < |anchors| - 1;
      earlier + here
  }

  /** A successful run emits one event per selected anchor, in page order:
      the k-th event is the one the k-th selected anchor yields. */
  lemma {:induction false} EventsShape(anchors: seq<Anchor>, ctx: Context)
    requires Events(anchors, ctx).Ok?
    ensures var evs := Events(anchors, ctx).value;
            var idx := SelectedIndices(anchors, ctx);
            |evs| == |idx| &&
            forall k :: 0 <= k < |evs| ==> EventFor(anchors[idx[k]], ctx) == Ok(Some(evs[k]))
    decreases |anchors|
  {
    if |anchors| > 0 {
      var init := anchors[..|anchors| - 1];
      var last := anchors[|anchors| - 1];
      EventsShape(init, ctx);
      EventForShape(last, ctx);
      var evs := Events(anchors, ctx).value;
      var idx := SelectedIndices(anchors, ctx);
      var evs0 := Events(init, ctx).value;
      var idx0 := SelectedIndices(init, ctx);
      assert idx[..|idx0|] == idx0;
      assert evs[..|evs0|] == evs0;
      forall k | 0 <= k < |evs0|
        ensures EventFor(anchors[idx[k]], ctx) == Ok(Some(evs[k]))
      {
        assert idx[k] == idx0[k] && evs[k] == evs0[k];
        assert init[idx0[k]] == anchors[idx0[k]];
      }
    }
  }

  /** With alarms off no event carries an alarm. */
  lemma {:induction false} DisabledNoAlarms(anchors: seq<Anchor>, ctx: Context)
    requires !ctx.cfg.enabled && Events(anchors, ctx).Ok?
    ensures forall e :: e in Events(anchors, ctx).value ==> e.alarm == None
  {
    EventsShape(anchors, ctx);
    var evs := Events(anchors, ctx).value;
    var idx := SelectedIndices(anchors, ctx);
    forall k | 0 <= k < |evs| ensures evs[k].alarm == None {
      EventForShape(anchors[idx[k]], ctx);
    }
  }

  /** The loop of lines 136-167 as it runs: each event is added to the calendar
      in turn, and the first exception ends the run. */
  method BuildCalendar(anchors: seq<Anchor>, ctx: Context) returns (r: Result<seq<Event>>)
    ensures r == Events(anchors, ctx)
  {
    var cal: seq<Event> := [];
    for i := 0 to |anchors|
      invariant Events(anchors[..i], ctx) == Ok(cal)
    {
      var e := EventFor(anchors[i], ctx);
      EventsStep(anchors, i, ctx);
      if e.Err? {
        EventsErrorPersists(anchors, i + 1, ctx);
        return Err(e.error);
      }
      if e.value.Some? {
        cal := cal + [e.value.value];
      } else {
        assert cal + [] == cal;
      }
    }
    assert anchors[..|anchors|] == anchors;
    r := Ok(cal);
  }

  /** One more anchor: its event, if any, comes after the earlier ones. */
  lemma EventsStep(anchors: seq<Anchor>, i: nat, ctx: Context)
    requires i < |anchors| && Events(anchors[..i], ctx).Ok?
    ensures EventFor(anchors[i], ctx).Err? ==> Events(anchors[..i + 1], ctx) == Err(EventFor(anchors[i], ctx).error)
    ensures EventFor(anchors[i], ctx).Ok? ==>
              Events(anchors[..i + 1], ctx) ==
                Ok(Events(anchors[..i], ctx).value +
                   (if EventFor(anchors[i], ctx).value.Some? then [EventFor(anchors[i], ctx).value.value] else []))
  {
    assert anchors[..i + 1][..i] == anchors[..i] && anchors[..i + 1][i] == anchors[i];
  }

  /** A failure in a prefix is the failure of the whole run. */
  lemma {:induction false} EventsErrorPersists(anchors: seq<Anchor>, k: nat, ctx: Context)
    requires k <= |anchors| && Events(anchors[..k], ctx).Err?
    ensures Events(anchors, ctx) == Events(anchors[..k], ctx)
    decreases |anchors| - k
  {
    if k < |anchors| {
      assert anchors[..k + 1][..k] == anchors[..k];
      EventsErrorPersists(anchors, k + 1, ctx);
    } else {
      assert anchors[..k] == anchors;
    }
  }
}
