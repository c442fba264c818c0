/** Lines 138-146 of the script: one waste-info anchor of the page becomes a
    waste type, a date and a description. The parsed HTML is abstracted as a
    record per anchor. */
module Extract {
  import opened Failures
  import opened Text
  import opened Dates

  /** The first <p> inside the anchor: its class list, if it has a class
      attribute, and its text. */
  datatype Paragraph = Paragraph(classes: Option<seq<string>>, text: string)

  /** One <a class="wasteInfoIcon textDecorationNone">: its href attribute, its
      first <p>, and the text of its <span class="afvaldescr">. */
  datatype Anchor = Anchor(href: Option<string>, para: Option<Paragraph>, description: Option<string>)

  const Placeholder := "javascript:void(0);"

  /** Lines 138-141: the href with every '#' and every "waste-" removed; when
      that leaves nothing or the placeholder, the first class of the <p>. */
  function WasteTypeOf(a: Anchor): Result<string>
  {
    if a.href.None? then Err(MissingHref)
    else
      var w := ReplaceAll(ReplaceAll(a.href.value, "#", ""), "waste-", "");
      if w == "" || w == Placeholder then
        if a.para.None? then Err(MissingParagraph)
        else if a.para.value.classes.None? then Ok(w)
        else if |a.para.value.classes.value| == 0 then Err(EmptyClassList)
        else Ok(a.para.value.classes.value[0])
      else Ok(w)
  }

  /** A pattern whose first character is nowhere in s does not occur in s. */
  lemma FirstCharAbsent(s: string, pat: string)
    requires |pat| > 0 && forall i :: 0 <= i < |s| ==> s[i] != pat[0]
    ensures !Occurs(s, pat)
  {
    forall i | 0 <= i <= |s| ensures !OccursAt(s, pat, i) {
      if i + |pat| <= |s| {
        assert s[i..i + |pat|][0] == s[i];
      }
    }
  }

  /** A one-character pattern occurs in a + b only if it occurs in a or in b. */
  lemma NoOccurrenceInJoin(a: string, b: string, c: char)
    requires !Occurs(a, [c]) && !Occurs(b, [c])
    ensures !Occurs(a + b, [c])
  {
    forall i | OccursAt(a + b, [c], i) ensures false {
      if i < |a| {
        assert a[i..i + 1] == (a + b)[i..i + 1];
        assert OccursAt(a, [c], i);
      } else {
        assert b[i - |a|..i - |a| + 1] == (a + b)[i..i + 1];
        assert OccursAt(b, [c], i - |a|);
      }
    }
  }

  lemma StripFragment(x: string)
    requires !Occurs(x, "#") && !Occurs(x, "waste-")
    ensures ReplaceAll(ReplaceAll("#waste-" + x, "#", ""), "waste-", "") == x
  {
    assert "#waste-" + x == "#" + ("waste-" + x);
    var y := "waste-" + x;
    ReplaceAllPrefix("#", y, "");
    assert ReplaceAll("#waste-" + x, "#", "") == ReplaceAll(y, "#", "");
    FirstCharAbsent("waste-", "#");
    NoOccurrenceInJoin("waste-", x, '#');
    ReplaceAllAbsent(y, "#", "");
    assert ReplaceAll("#waste-" + x, "#", "") == y;
    ReplaceAllPrefix("waste-", x, "");
    ReplaceAllAbsent(x, "waste-", "");
  }

  /** A fragment link "#waste-x" names waste type x, whatever the <p> holds. */
  lemma WasteTypeFromFragment(a: Anchor, x: string)
    requires a.href == Some("#waste-" + x)
    requires x != "" && x != Placeholder && !Occurs(x, "#") && !Occurs(x, "waste-")
    ensures WasteTypeOf(a) == Ok(x)
  {
    StripFragment(x);
  }

  /** A link with neither '#' nor 'w' in it is left as it is. */
  lemma StripNothing(h: string)
    requires forall i :: 0 <= i < |h| ==> h[i] != '#' && h[i] != 'w'
    ensures ReplaceAll(ReplaceAll(h, "#", ""), "waste-", "") == h
  {
    FirstCharAbsent(h, "#");
    ReplaceAllAbsent(h, "#", "");
    FirstCharAbsent(h, "waste-");
    ReplaceAllAbsent(h, "waste-", "");
  }

  lemma StripEmpty(h: string)
    requires h == "#" || h == ""
    ensures ReplaceAll(ReplaceAll(h, "#", ""), "waste-", "") == ""
  {
    if h == "#" {
      ReplaceAllPrefix("#", "", "");
    }
  }

  /** An empty fragment or the placeholder link falls back to the first class of the <p>. */
  lemma WasteTypeFromClass(a: Anchor, c: string, rest: seq<string>, text: string)
    requires a.href == Some("#") || a.href == Some("") || a.href == Some(Placeholder)
    requires a.para == Some(Paragraph(Some([c] + rest), text))
    ensures WasteTypeOf(a) == Ok(c)
  {
    if a.href == Some(Placeholder) {
      StripNothing(Placeholder);
    } else {
      StripEmpty(a.href.value);
    }
  }

  /** The groups of r"(\w+) (\d+) (\w+)( (\d+))?" : weekday, day, month name and optional year. */
  datatype DateFields = DateFields(weekday: string, day: string, month: string, year: Option<string>)

  /** The number of word characters from position i on. */
  function WordRun(s: string, i: nat): (n: nat)
    requires i <= |s|
    ensures i + n <= |s|
    decreases |s| - i
  {
    if i < |s| && IsWordChar(s[i]) then 1 + WordRun(s, i + 1) else 0
  }

  /** The number of digits from position i on. */
  function DigitRun(s: string, i: nat): (n: nat)
    requires i <= |s|
    ensures i + n <= |s|
    decreases |s| - i
  {
    if i < |s| && IsDigit(s[i]) then 1 + DigitRun(s, i + 1) else 0
  }

  /** The pattern tried at position p. Each \w+ and \d+ is greedy and must be
      followed by a single space, so backtracking never changes its length;
      the optional year takes all the digits after a space. */
  function MatchAt(s: string, p: nat): Option<DateFields>
    requires p <= |s|
  {
    var a := WordRun(s, p);
    if a == 0 || p + a == |s| || s[p + a] != ' ' then None
    else
      var q := p + a + 1;
      var b := DigitRun(s, q);
      if b == 0 || q + b == |s| || s[q + b] != ' ' then None
      else
        var r := q + b + 1;
        var c := WordRun(s, r);
        if c == 0 then None
        else
          Some(DateFields(s[p..p + a], s[q..q + b], s[r..r + c], YearGroup(s, r + c)))
  }

  /** The optional group ( (\d+))? at position e: a space and all the digits after it. */
  function YearGroup(s: string, e: nat): Option<string>
    requires e <= |s|
  {
    var y := if e < |s| && s[e] == ' ' then DigitRun(s, e + 1) else 0;
    if y > 0 then Some(s[e + 1..e + 1 + y]) else None
  }

  /** re.search: the match at the leftmost position where there is one. */
  function Search(s: string, p: nat): Option<DateFields>
    requires p <= |s|
    decreases |s| - p
  {
    match MatchAt(s, p)
    case Some(f) => Some(f)
    case None => if p == |s| then None else Search(s, p + 1)
  }

  /** Line 145: the year given, or the current one; the month by its Dutch name,
      0 for an unknown word; then datetime(), which rejects what is not a date. */
  function ResolveDate(text: string, currentYear: int): (r: Result<Date>)
    ensures r.Ok? ==> IsValid(r.value)
  {
    match Search(text, 0)
    case None => Err(NoDateMatch(text))
    case Some(f) =>
      var year :- if f.year.Some? then ParseInt(f.year.value) else Ok(currentYear);
      var day :- ParseInt(f.day);
      MakeDate(year, MonthNumber(f.month), day)
  }

  /** How the collection page writes a date: weekday, day, month name and year. */
  function DateText(weekday: string, d: Date): string
    requires 1 <= d.month <= 12 && d.day >= 0 && d.year >= 0
  {
    weekday + " " + Decimal(d.day) + " " + MonthName(d.month) + " " + Decimal(d.year)
  }

  /** ... and without the year, as it does for dates in the current year. */
  function ShortDateText(weekday: string, d: Date): string
    requires 1 <= d.month <= 12 && d.day >= 0
  {
    weekday + " " + Decimal(d.day) + " " + MonthName(d.month)
  }

  lemma MonthNameIsWord(m: int)
    requires 1 <= m <= 12
    ensures |MonthName(m)| > 0 && AllWordChars(MonthName(m))
  {
  }

  /** The text "w d m" followed by `tail`, where the tail does not continue the month word. */
  function Fields(w: string, ds: string, m: string, tail: string): string
  {
    w + " " + ds + " " + m + tail
  }

  /** MatchAt succeeds once its three runs and the two spaces between them are in place. */
  lemma MatchAtRuns(s: string, p: nat, a: nat, b: nat, c: nat)
    requires p + a + 1 + b + 1 + c <= |s| && a > 0 && b > 0 && c > 0
    requires WordRun(s, p) == a && s[p + a] == ' '
    requires DigitRun(s, p + a + 1) == b && s[p + a + 1 + b] == ' '
    requires WordRun(s, p + a + 1 + b + 1) == c
    ensures var r := p + a + 1 + b + 1;
            MatchAt(s, p) == Some(DateFields(s[p..p + a], s[p + a + 1..p + a + 1 + b], s[r..r + c], YearGroup(s, r + c)))
  {
  }

  /** The pieces of Fields(...) by position. */
  lemma FieldsPieces(w: string, ds: string, m: string, tail: string)
    ensures var s := Fields(w, ds, m, tail);
            var q := |w| + 1;
            var r := q + |ds| + 1;
            |s| == r + |m| + |tail| && s[0..|w|] == w && s[|w|] == ' ' &&
            s[q..q + |ds|] == ds && s[q + |ds|] == ' ' && s[r..r + |m|] == m && s[r + |m|..] == tail
  {
  }

  /** MatchAt at 0 reads the three fields of Fields(...). */
  lemma MatchThreeFields(w: string, ds: string, m: string, tail: string)
    requires |w| > 0 && AllWordChars(w) && |ds| > 0 && AllDigits(ds) && |m| > 0 && AllWordChars(m)
    requires tail == [] || !IsWordChar(tail[0])
    ensures var s := Fields(w, ds, m, tail);
            |w| + 1 + |ds| + 1 + |m| <= |s| &&
            MatchAt(s, 0) == Some(DateFields(w, ds, m, YearGroup(s, |w| + 1 + |ds| + 1 + |m|)))
  {
    var s := Fields(w, ds, m, tail);
    var r := |w| + 1 + |ds| + 1;
    FieldsPieces(w, ds, m, tail);
    assert r + |m| < |s| ==> s[r + |m|] == tail[0];
    MatchAtFields(s, w, ds, m);
  }

  /** MatchAt at 0 reads w, ds and m when s holds them there, a space after
      each of the first two, and the month word is not continued. */
  lemma MatchAtFields(s: string, w: string, ds: string, m: string)
    requires |w| > 0 && AllWordChars(w) && |ds| > 0 && AllDigits(ds) && |m| > 0 && AllWordChars(m)
    requires |w| + 1 + |ds| + 1 + |m| <= |s|
    requires s[0..|w|] == w && s[|w|] == ' '
    requires s[|w| + 1..|w| + 1 + |ds|] == ds && s[|w| + 1 + |ds|] == ' '
    requires var r := |w| + 1 + |ds| + 1; s[r..r + |m|] == m && (r + |m| == |s| || !IsWordChar(s[r + |m|]))
    ensures MatchAt(s, 0) == Some(DateFields(w, ds, m, YearGroup(s, |w| + 1 + |ds| + 1 + |m|)))
  {
    var q := |w| + 1;
    var r := q + |ds| + 1;
    WordRunAt(s, 0, w);
    DigitRunAt(s, q, ds);
    WordRunAt(s, r, m);
    MatchAtRuns(s, 0, |w|, |ds|, |m|);
  }

  /** The word run at i is w when s holds w there and does not continue it. */
  lemma {:induction false} WordRunAt(s: string, i: nat, w: string)
    requires i + |w| <= |s| && s[i..i + |w|] == w && AllWordChars(w)
    requires i + |w| == |s| || !IsWordChar(s[i + |w|])
    ensures WordRun(s, i) == |w|
    decreases |w|
  {
    if |w| > 0 {
      assert s[i] == w[0];
      assert s[i + 1..i + 1 + |w[1..]|] == w[1..];
      WordRunAt(s, i + 1, w[1..]);
    }
  }

  /** The digit run at i is ds when s holds ds there and does not continue it. */
  lemma {:induction false} DigitRunAt(s: string, i: nat, ds: string)
    requires i + |ds| <= |s| && s[i..i + |ds|] == ds && AllDigits(ds)
    requires i + |ds| == |s| || !IsDigit(s[i + |ds|])
    ensures DigitRun(s, i) == |ds|
    decreases |ds|
  {
    if |ds| > 0 {
      assert s[i] == ds[0];
      assert s[i + 1..i + 1 + |ds[1..]|] == ds[1..];
      DigitRunAt(s, i + 1, ds[1..]);
    }
  }

  /** With the year: the year group is its digits. */
  lemma MatchWithYear(w: string, ds: string, m: string, ys: string)
    requires |w| > 0 && AllWordChars(w) && |ds| > 0 && AllDigits(ds) && |m| > 0 && AllWordChars(m)
    requires |ys| > 0 && AllDigits(ys)
    ensures Search(Fields(w, ds, m, " " + ys), 0) == Some(DateFields(w, ds, m, Some(ys)))
  {
    var s := Fields(w, ds, m, " " + ys);
    MatchThreeFields(w, ds, m, " " + ys);
    var e := |w| + 1 + |ds| + 1 + |m|;
    FieldsTail(w, ds, m, " " + ys);
    YearGroupAt(s, e, ys);
  }

  /** Fields(...) ends with its tail. */
  lemma FieldsTail(w: string, ds: string, m: string, tail: string)
    ensures var s := Fields(w, ds, m, tail);
            var e := |w| + 1 + |ds| + 1 + |m|;
            |s| == e + |tail| && s[e..] == tail
  {
  }

  /** A space and then a digit run to the end is the year group. */
  lemma YearGroupAt(s: string, e: nat, ys: string)
    requires e <= |s| && s[e..] == " " + ys && |ys| > 0 && AllDigits(ys)
    ensures YearGroup(s, e) == Some(ys)
  {
    assert s[e] == ' ';
    assert s[e + 1..] == ys;
    assert s[e + 1..e + 1 + |ys|] == ys;
    DigitRunAt(s, e + 1, ys);
  }

  /** Without the year: the year group does not participate. */
  lemma MatchWithoutYear(w: string, ds: string, m: string)
    requires |w| > 0 && AllWordChars(w) && |ds| > 0 && AllDigits(ds) && |m| > 0 && AllWordChars(m)
    ensures Search(Fields(w, ds, m, []), 0) == Some(DateFields(w, ds, m, None))
  {
    MatchThreeFields(w, ds, m, []);
    FieldsTail(w, ds, m, []);
  }

  /** The page's dates read back: with a year, the date written; without one,
      that day and month in the current year; in both cases a day the month
      does not have (or year 0) is an InvalidDate failure, and a day or year
      beyond the C int range an overflow. */
  lemma ResolveDateText(weekday: string, d: Date, currentYear: int)
    requires 1 <= d.month <= 12 && d.day >= 0 && d.year >= 0 && |weekday| > 0 && AllWordChars(weekday)
    ensures ResolveDate(DateText(weekday, d), currentYear) == MakeDate(d.year, d.month, d.day)
    ensures ResolveDate(ShortDateText(weekday, d), currentYear) == MakeDate(currentYear, d.month, d.day)
    ensures IsValid(d) ==> ResolveDate(DateText(weekday, d), currentYear) == Ok(d)
  {
    MonthNameIsWord(d.month);
    MonthTable(d.month, "");
    var ds := Decimal(d.day);
    var mn := MonthName(d.month);
    var ys := Decimal(d.year);
    ParseIntDecimal(d.day);
    ParseIntDecimal(d.year);
    assert DateText(weekday, d) == Fields(weekday, ds, mn, " " + ys);
    MatchWithYear(weekday, ds, mn, ys);
    ResolveMatched(DateText(weekday, d), currentYear, DateFields(weekday, ds, mn, Some(ys)), d.year, d.month, d.day);
    assert ShortDateText(weekday, d) == Fields(weekday, ds, mn, []);
    MatchWithoutYear(weekday, ds, mn);
    ResolveMatched(ShortDateText(weekday, d), currentYear, DateFields(weekday, ds, mn, None), currentYear, d.month, d.day);
    if IsValid(d) {
      MakeDateOfValid(d);
    }
  }

  /** Once the fields of the leftmost match read as numbers, the date is datetime() of them. */
  lemma ResolveMatched(text: string, currentYear: int, f: DateFields, year: int, month: int, day: int)
    requires Search(text, 0) == Some(f)
    requires ParseInt(f.day) == Ok(day) && MonthNumber(f.month) == month
    requires f.year.Some? ==> ParseInt(f.year.value) == Ok(year)
    requires f.year.None? ==> year == currentYear
    ensures ResolveDate(text, currentYear) == MakeDate(year, month, day)
  {
  }

  /** Wherever the leftmost match sits and whether or not it has a year, a
      month word outside the table makes the date fail: MONTHS.get gives 0,
      which datetime() refuses. */
  lemma UnknownMonthFails(text: string, currentYear: int)
    requires Search(text, 0).Some? && MonthNumber(Search(text, 0).value.month) == 0
    ensures ResolveDate(text, currentYear).Err?
    ensures !ResolveDate(text, currentYear).error.NoDateMatch?
  {
  }

  /** Text with no digit at all never yields a date. */
  lemma NoDigitNoDate(text: string, currentYear: int)
    requires NoDigits(text)
    ensures ResolveDate(text, currentYear) == Err(NoDateMatch(text))
  {
    NoDigitNoMatch(text, 0);
  }

  lemma {:induction false} NoDigitNoMatch(s: string, p: nat)
    requires p <= |s| && NoDigits(s)
    ensures Search(s, p) == None
    decreases |s| - p
  {
    var a := WordRun(s, p);
    if a > 0 && p + a < |s| && s[p + a] == ' ' {
      var q := p + a + 1;
      assert q < |s| ==> !IsDigit(s[q]);
    }
    if p < |s| {
      NoDigitNoMatch(s, p + 1);
    }
  }

  /** Line 146: the page escapes commas in descriptions as "\,". */
  function Unescape(s: string): string
  {
    ReplaceAll(s, "\\,", ",")
  }

  /** The escaping the page applies, which Unescape undoes. */
  function Escape(s: string): string
  {
    ReplaceAll(s, ",", "\\,")
  }

  lemma EscapeFirst(s: string)
    requires |s| > 0
    ensures Escape(s) == (if s[0] == ',' then "\\," else [s[0]]) + Escape(s[1..])
  {
    assert s[..1] == [s[0]];
  }

  /** Unescaping an escaped description gives it back unchanged. */
  lemma {:induction false} UnescapeEscape(s: string)
    ensures Unescape(Escape(s)) == s
    decreases |s|
  {
    if |s| > 0 {
      EscapeFirst(s);
      var rest := Escape(s[1..]);
      UnescapeEscape(s[1..]);
      if s[0] == ',' {
        ReplaceAllPrefix("\\,", rest, ",");
      } else {
        var e := [s[0]] + rest;
        assert |e| >= 2 ==> e[..2] != "\\," by {
          assert |e| >= 2 ==> e[..2][0] == s[0] && e[..2][1] == rest[0];
          if |e| >= 2 && s[0] == '\\' {
            EscapeFirst(s[1..]);
            assert rest[0] != ',';
          }
        }
        assert e[1..] == rest;
        assert e[0] == s[0];
      }
    }
  }
}
