/** The whole script as one conversion: command-line arguments and the
    fetched page in, calendar out. The HTTP request is a parameter, and so is
    the current year (the only part of datetime.now() the events depend on). */
module Pipeline {
  import opened Failures
  import opened Text
  import opened AlarmPolicy
  import opened Arguments
  import opened Extract
  import opened CalendarEvents

  /** The positional arguments and the --alarm option, as argparse hands them over. */
  datatype Args = Args(postalCode: string, houseNumber: string, wasteTypes: string, alarm: AlarmOption)

  /** The parsed page: the text of its <title>, if it has one, and its
      waste-info anchors in document order. */
  datatype Page = Page(title: Option<string>, anchors: seq<Anchor>)

  /** The VCALENDAR: its fixed header fields, the page title as description,
      the page URL and the events. */
  datatype Calendar = Calendar(prodid: string, version: string, name: string, calname: string,
                               timezone: string, description: string, url: string, events: seq<Event>)

  const ProjectUrl := "https://github.com/vwout/mijnafvalwijzer-to-ical"

  /** The page URL for the address (lines 77-82 and 120). */
  function AddressUrl(args: Args): string
  {
    var (number, suffix) := SplitHouseNumber(args.houseNumber);
    PageUrl(args.postalCode, number, suffix)
  }

  /** Lines 125-167, once the page is in: the header fields, then the events. */
  function Assemble(url: string, page: Page, ctx: Context): Result<Calendar>
  {
    if page.title.None? then Err(MissingTitle)
    else
      var events :- Events(page.anchors, ctx);
      Ok(Calendar("-//" + ProjectUrl + "//NL", "2.0", "Afvalkalender", "Afvalkalender",
                  "Europe/Amsterdam", page.title.value, url, events))
  }

  /** Lines 75-167: the whole run. The selector and the alarm option are read
      first, so a bad alarm value ends the run before the page is fetched;
      then the page of the address is fetched and turned into the calendar. */
  function Convert(args: Args, fetch: string -> Result<Page>, currentYear: int): Result<Calendar>
  {
    var sel := ParseSelection(args.wasteTypes);
    var cfg :- AlarmSpec(args.alarm);
    var url := AddressUrl(args);
    var page :- fetch(url);
    Assemble(url, page, Context(sel, cfg, currentYear))
  }

  /** A malformed --alarm value stops the run before any request is made,
      whatever the server would have answered. */
  lemma BadAlarmStopsEarly(args: Args, fetch: string -> Result<Page>, currentYear: int)
    requires args.alarm.Custom? && (multiset(args.alarm.spec)[':'] + multiset(args.alarm.spec)[',']) % 2 == 0
    ensures Convert(args, fetch, currentYear) == Err(BadAlarmFormat)
  {
    AlarmCustom(args.alarm.spec);
    AlarmErrorStops(args, fetch, currentYear);
  }

  /** A failure of the alarm option is the failure of the run. */
  lemma AlarmErrorStops(args: Args, fetch: string -> Result<Page>, currentYear: int)
    requires AlarmSpec(args.alarm).Err?
    ensures Convert(args, fetch, currentYear) == Err(AlarmSpec(args.alarm).error)
  {
  }

  /** The URL names the house number and suffix, which make up the house
      number argument when it has the number-then-suffix shape. */
  lemma AddressUrlParts(args: Args)
    ensures IsNumberWithSuffix(args.houseNumber) ==>
              var number := SplitHouseNumber(args.houseNumber).0;
              var suffix := SplitHouseNumber(args.houseNumber).1;
              AddressUrl(args) == PageUrl(args.postalCode, number, suffix) &&
              number + suffix == args.houseNumber && |number| > 0 && AllDigits(number) && NoDigits(suffix)
    ensures !IsNumberWithSuffix(args.houseNumber) ==> AddressUrl(args) == PageUrl(args.postalCode, args.houseNumber, "")
  {
    SplitHouseNumberShape(args.houseNumber);
  }

  /** A calendar produced carries the fixed header, the page title and the
      address URL, and holds the events of the page fetched from that URL
      under the parsed selection and alarm configuration. */
  lemma ConvertResult(args: Args, fetch: string -> Result<Page>, currentYear: int)
    requires Convert(args, fetch, currentYear).Ok?
    ensures var cal := Convert(args, fetch, currentYear).value;
            AlarmSpec(args.alarm).Ok? && cal.url == AddressUrl(args) &&
            fetch(cal.url).Ok? && fetch(cal.url).value.title == Some(cal.description) &&
            Events(fetch(cal.url).value.anchors,
                   Context(ParseSelection(args.wasteTypes), AlarmSpec(args.alarm).value, currentYear)) == Ok(cal.events) &&
            cal.prodid == "-//" + ProjectUrl + "//NL" && cal.version == "2.0" &&
            cal.name == "Afvalkalender" && cal.calname == "Afvalkalender" && cal.timezone == "Europe/Amsterdam"
  {
  }

  /** Without --alarm the calendar has no alarms. */
  lemma NoAlarmOptionNoAlarms(args: Args, fetch: string -> Result<Page>, currentYear: int)
    requires args.alarm == Absent && Convert(args, fetch, currentYear).Ok?
    ensures forall e :: e in Convert(args, fetch, currentYear).value.events ==> e.alarm == None
  {
    var url := AddressUrl(args);
    DisabledNoAlarms(fetch(url).value.anchors, Context(ParseSelection(args.wasteTypes), AlarmSpec(Absent).value, currentYear));
  }

  /** The script from top to bottom: the alarm table is built by its loops,
      the page is fetched, and the events are added one by one. */
  method Run(args: Args, fetch: string -> Result<Page>, currentYear: int) returns (r: Result<Calendar>)
    ensures r == Convert(args, fetch, currentYear)
  {
    var (number, suffix) := SplitHouseNumber(args.houseNumber);
    var sel := ParseSelection(args.wasteTypes);
    var cfg := ConfigureAlarms(args.alarm);
    if cfg.Err? {
      return Err(cfg.error);
    }
    var url := PageUrl(args.postalCode, number, suffix);
    var page := fetch(url);
    if page.Err? {
      return Err(page.error);
    }
    if page.value.title.None? {
      return Err(MissingTitle);
    }
    var events := BuildCalendar(page.value.anchors, Context(sel, cfg.value, currentYear));
    if events.Err? {
      return Err(events.error);
    }
    r := Ok(Calendar("-//" + ProjectUrl + "//NL", "2.0", "Afvalkalender", "Afvalkalender",
                     "Europe/Amsterdam", page.value.title.value, url, events.value));
  }
}
