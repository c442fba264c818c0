/** Lines 77-87 and 120 of the script: the house number is split into number
    and suffix, the waste-type selector is read, and the page URL is built. */
module Arguments {
  import opened Text
  import opened AlarmPolicy

  /** The length of the run of digits at the start of s. */
  function LeadingDigits(s: string): (n: nat)
    ensures n <= |s| && AllDigits(s[..n])
    ensures n < |s| ==> !IsDigit(s[n])
    decreases |s|
  {
    if |s| > 0 && IsDigit(s[0]) then
      var n := 1 + LeadingDigits(s[1..]);
      assert s[..n] == [s[0]] + s[1..][..n - 1];
      n
    else 0
  }

  /** The shape re.search(r"^(\d+)(\D*)$", s) accepts: digits, then non-digits to the end. */
  predicate IsNumberWithSuffix(s: string)
  {
    exists k :: 0 < k <= |s| && AllDigits(s[..k]) && NoDigits(s[k..])
  }

  /** Lines 77-82: the house number and its suffix, split after the leading
      digits when the rest has no digit, otherwise the argument and "". */
  function SplitHouseNumber(s: string): (string, string)
  {
    var n := LeadingDigits(s);
    if n > 0 && NoDigits(s[n..]) then (s[..n], s[n..]) else (s, "")
  }

  /** When the house number has the accepted shape, the number is its digit run
      and the suffix the rest; otherwise the number is left as given and the
      suffix is empty. */
  lemma SplitHouseNumberShape(s: string)
    ensures IsNumberWithSuffix(s) ==>
              var (number, suffix) := SplitHouseNumber(s);
              number + suffix == s && |number| > 0 && AllDigits(number) && NoDigits(suffix)
    ensures !IsNumberWithSuffix(s) ==> SplitHouseNumber(s) == (s, "")
  {
    var n := LeadingDigits(s);
    if n > 0 && NoDigits(s[n..]) {
      assert s[..n] + s[n..] == s;
      assert 0 < n <= |s| && AllDigits(s[..n]) && NoDigits(s[n..]);
    } else {
      forall k | 0 < k <= |s| && AllDigits(s[..k]) && NoDigits(s[k..])
        ensures false
      {
        ShapeIsLeadingRun(s, k);
      }
    }
  }

  /** The digit run of an accepted house number is its whole leading run of digits. */
  lemma ShapeIsLeadingRun(s: string, k: int)
    ensures 0 < k <= |s| && AllDigits(s[..k]) && NoDigits(s[k..]) ==> LeadingDigits(s) == k
  {
    if 0 < k <= |s| && AllDigits(s[..k]) && NoDigits(s[k..]) {
      forall i | 0 <= i < k ensures IsDigit(s[i]) {
        assert s[..k][i] == s[i];
      }
      assert k < |s| ==> s[k..][0] == s[k];
      LeadingDigitsUnique(s, k);
    }
  }

  /** A run of k digits followed by a non-digit (or the end) is the leading run. */
  lemma {:induction false} LeadingDigitsUnique(s: string, k: nat)
    requires k <= |s| && (forall i :: 0 <= i < k ==> IsDigit(s[i]))
    requires k == |s| || !IsDigit(s[k])
    ensures LeadingDigits(s) == k
    decreases k
  {
    if k > 0 {
      assert forall i :: 0 <= i < k - 1 ==> s[1..][i] == s[i + 1];
      assert k - 1 < |s[1..]| ==> s[1..][k - 1] == s[k];
      LeadingDigitsUnique(s[1..], k - 1);
    }
  }

  /** The waste-type argument: the '*' sentinel, or a comma-separated list. */
  datatype Selection = AllTypes | Listed(names: seq<string>)

  /** Lines 84-87: '*' selects every category of the alarm table, anything
      else is split on ',' into the names to select. */
  function ParseSelection(arg: string): (sel: Selection)
    ensures sel == AllTypes <==> arg == "*"
    ensures sel.Listed? ==> |sel.names| > 0 && Join(sel.names, ',') == arg && forall i :: 0 <= i < |sel.names| ==> ',' !in sel.names[i]
  {
    if arg == "*" then AllTypes
    else
      SplitJoin(arg, ',');
      Listed(Split(arg, ','))
  }

  /** `waste_type in waste_types`. With '*', waste_types IS the alarm table
      (the same dict object), so a category added by a custom alarm pair is
      selected too; with a list it is list membership. */
  predicate Selected(sel: Selection, table: map<string, Setting>, waste: string)
  {
    match sel
    case AllTypes => waste in table
    case Listed(names) => waste in names
  }

  /** Line 120: the collection-day page of the address on mijnafvalwijzer.nl. */
  function PageUrl(postalCode: string, number: string, suffix: string): string
  {
    "https://www.mijnafvalwijzer.nl/nl/" + postalCode + "/" + number + "/" + suffix
  }
}
