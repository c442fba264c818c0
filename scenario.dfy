/** A worked run: one row whose link names its waste type and whose date
    carries the year, one row with the placeholder link, its type named by
    class and its date without the year; both types are selected and --alarm
    is given without a value. */
module Scenario {
  import opened Failures
  import opened Text
  import opened Dates
  import opened AlarmPolicy
  import opened Arguments
  import opened Extract
  import opened CalendarEvents

  /** A row linking to "#waste-" + waste, dated with its year. */
  function FragmentRow(waste: string, weekday: string, d: Date, descr: string): Anchor
    requires 1 <= d.month <= 12 && d.day >= 0 && d.year >= 0
  {
    Anchor(Some("#waste-" + waste), Some(Paragraph(None, DateText(weekday, d))), Some(descr))
  }

  /** A row with the placeholder link, its type as the <p> class, dated without the year. */
  function ClassRow(waste: string, weekday: string, d: Date, descr: string): Anchor
    requires 1 <= d.month <= 12 && d.day >= 0
  {
    Anchor(Some(Placeholder), Some(Paragraph(Some([waste]), ShortDateText(weekday, d))), Some(descr))
  }

  /** Alarms on, and the 8h00 offset for each of the nine categories. */
  predicate DefaultAlarms(cfg: AlarmConfig)
  {
    cfg.enabled && forall w :: w in WasteTypes ==> w in cfg.table && cfg.table[w] == Offset(DefaultOffset)
  }

  /** A bare --alarm configures the default alarms. */
  lemma BareGivesDefaultAlarms()
    ensures AlarmSpec(Bare).Ok? && DefaultAlarms(AlarmSpec(Bare).value)
  {
    AlarmBare();
  }

  /** The event of a selected row with default alarms. */
  lemma DefaultAlarmRow(a: Anchor, ctx: Context, waste: string, d: Date, raw: string)
    requires DefaultAlarms(ctx.cfg) && waste in WasteTypes && Selected(ctx.sel, ctx.cfg.table, waste)
    requires WasteTypeOf(a) == Ok(waste) && a.para.Some? && ResolveDate(a.para.value.text, ctx.currentYear) == Ok(d)
    requires a.description == Some(raw) && d != Date(MaxYear, 12, 31)
    ensures EventFor(a, ctx).Ok? && EventFor(a, ctx).value.Some?
    ensures var e := EventFor(a, ctx).value.value;
            e.start == d && NextDay(d) == Ok(e.end) && e.uid == Uid(d, waste) &&
            e.description == Unescape(raw) &&
            e.alarm == Some(Alarm("DISPLAY", DefaultOffset, "Afval - " + Unescape(raw)))
  {
    NextDayIsOneDayLater(d);
    EventForRow(a, ctx, waste, d, NextDay(d).value, raw);
  }

  /** Two selected rows, on dates other than the last one datetime allows,
      give exactly two events in page order: on the written date and on the
      day and month of the second row in the current year, each ending one day
      later and each with a display alarm 8h00 after the start of its day. */
  lemma TwoRowCalendar(w1: string, w2: string, wd1: string, wd2: string, d1: Date, d2: Date,
                       descr1: string, descr2: string, ctx: Context)
    requires ctx.sel == Listed([w1, w2]) && DefaultAlarms(ctx.cfg)
    requires w1 in WasteTypes && w2 in WasteTypes
    requires !Occurs(w1, "#") && !Occurs(w1, "waste-")
    requires IsValid(d1) && IsValid(d2) && d2.year == ctx.currentYear
    requires d1 != Date(MaxYear, 12, 31) && d2 != Date(MaxYear, 12, 31)
    requires |wd1| > 0 && AllWordChars(wd1) && |wd2| > 0 && AllWordChars(wd2)
    ensures var r := Events([FragmentRow(w1, wd1, d1, descr1), ClassRow(w2, wd2, d2, descr2)], ctx);
            r.Ok? && |r.value| == 2 &&
            r.value[0].start == d1 && NextDay(d1) == Ok(r.value[0].end) &&
            r.value[1].start == d2 && NextDay(d2) == Ok(r.value[1].end) &&
            r.value[0].uid == Uid(d1, w1) && r.value[1].uid == Uid(d2, w2) &&
            r.value[0].alarm == Some(Alarm("DISPLAY", DefaultOffset, r.value[0].summary)) &&
            r.value[1].alarm == Some(Alarm("DISPLAY", DefaultOffset, r.value[1].summary))
  {
    var a1 := FragmentRow(w1, wd1, d1, descr1);
    var a2 := ClassRow(w2, wd2, d2, descr2);
    FragmentRowEvent(w1, wd1, d1, descr1, ctx);
    ClassRowEvent(w2, wd2, d2, descr2, ctx);
    EventsOfTwo(a1, a2, ctx, EventFor(a1, ctx).value.value, EventFor(a2, ctx).value.value);
  }

  lemma FragmentRowEvent(w: string, wd: string, d: Date, descr: string, ctx: Context)
    requires DefaultAlarms(ctx.cfg) && w in WasteTypes && Selected(ctx.sel, ctx.cfg.table, w)
    requires !Occurs(w, "#") && !Occurs(w, "waste-")
    requires IsValid(d) && d != Date(MaxYear, 12, 31) && |wd| > 0 && AllWordChars(wd)
    ensures EventFor(FragmentRow(w, wd, d, descr), ctx).Ok? && EventFor(FragmentRow(w, wd, d, descr), ctx).value.Some?
    ensures var e := EventFor(FragmentRow(w, wd, d, descr), ctx).value.value;
            e.start == d && NextDay(d) == Ok(e.end) && e.uid == Uid(d, w) &&
            e.alarm == Some(Alarm("DISPLAY", DefaultOffset, e.summary))
  {
    var a := FragmentRow(w, wd, d, descr);
    assert w != "" && w != Placeholder;
    WasteTypeFromFragment(a, w);
    ResolveDateText(wd, d, ctx.currentYear);
    DefaultAlarmRow(a, ctx, w, d, descr);
    EventForShape(a, ctx);
  }

  lemma ClassRowEvent(w: string, wd: string, d: Date, descr: string, ctx: Context)
    requires DefaultAlarms(ctx.cfg) && w in WasteTypes && Selected(ctx.sel, ctx.cfg.table, w)
    requires IsValid(d) && d.year == ctx.currentYear && d != Date(MaxYear, 12, 31) && |wd| > 0 && AllWordChars(wd)
    ensures EventFor(ClassRow(w, wd, d, descr), ctx).Ok? && EventFor(ClassRow(w, wd, d, descr), ctx).value.Some?
    ensures var e := EventFor(ClassRow(w, wd, d, descr), ctx).value.value;
            e.start == d && NextDay(d) == Ok(e.end) && e.uid == Uid(d, w) &&
            e.alarm == Some(Alarm("DISPLAY", DefaultOffset, e.summary))
  {
    var a := ClassRow(w, wd, d, descr);
    assert [w] + [] == [w];
    WasteTypeFromClass(a, w, [], ShortDateText(wd, d));
    ResolveDateText(wd, d, ctx.currentYear);
    assert MakeDate(ctx.currentYear, d.month, d.day) == Ok(d);
    DefaultAlarmRow(a, ctx, w, d, descr);
    EventForShape(a, ctx);
  }

  /** Two rows that both yield an event give those two events in order. */
  lemma EventsOfTwo(a1: Anchor, a2: Anchor, ctx: Context, e1: Event, e2: Event)
    requires EventFor(a1, ctx) == Ok(Some(e1)) && EventFor(a2, ctx) == Ok(Some(e2))
    ensures Events([a1, a2], ctx) == Ok([e1, e2])
  {
    var s := [a1, a2];
    assert s[..0] == [] && s[0] == a1 && s[1] == a2 && s[..2] == s;
    EventsStep(s, 0, ctx);
    EventsStep(s, 1, ctx);
    assert [] + [e1] + [e2] == [e1, e2];
  }

  /** The literal facts the March 2024 run needs. */
  lemma MarchFacts()
    ensures IsValid(Date(2024, 3, 5)) && IsValid(Date(2024, 3, 6))
    ensures NextDay(Date(2024, 3, 5)) == Ok(Date(2024, 3, 6)) && NextDay(Date(2024, 3, 6)) == Ok(Date(2024, 3, 7))
    ensures AllWordChars("maandag") && AllWordChars("dinsdag")
    ensures "gft" in WasteTypes && "restafval" in WasteTypes
    ensures !Occurs("gft", "#") && !Occurs("gft", "waste-")
  {
    FirstCharAbsent("gft", "#");
    FirstCharAbsent("gft", "waste-");
  }

  /** The two rows read "maandag 5 maart 2024" and "dinsdag 6 maart". */
  lemma MarchTexts()
    ensures DateText("maandag", Date(2024, 3, 5)) == "maandag 5 maart 2024"
    ensures ShortDateText("dinsdag", Date(2024, 3, 6)) == "dinsdag 6 maart"
  {
  }

  /** Rows dated "maandag 5 maart 2024" and "dinsdag 6 maart", run in 2024
      with "gft,restafval" selected and a bare --alarm, give two events: 5 to
      6 March and 6 to 7 March 2024, each with a display alarm 480 minutes
      after the start of its day. */
  lemma March2024(descr1: string, descr2: string, ctx: Context)
    requires ctx == Context(Listed(["gft", "restafval"]), AlarmSpec(Bare).value, 2024)
    ensures var r := Events([FragmentRow("gft", "maandag", Date(2024, 3, 5), descr1),
                             ClassRow("restafval", "dinsdag", Date(2024, 3, 6), descr2)], ctx);
            r.Ok? && |r.value| == 2 &&
            r.value[0].start == Date(2024, 3, 5) && r.value[0].end == Date(2024, 3, 6) &&
            r.value[1].start == Date(2024, 3, 6) && r.value[1].end == Date(2024, 3, 7) &&
            r.value[0].alarm == Some(Alarm("DISPLAY", 480, r.value[0].summary)) &&
            r.value[1].alarm == Some(Alarm("DISPLAY", 480, r.value[1].summary))
  {
    BareGivesDefaultAlarms();
    MarchFacts();
    TwoRowCalendar("gft", "restafval", "maandag", "dinsdag", Date(2024, 3, 5), Date(2024, 3, 6), descr1, descr2, ctx);
  }
}
