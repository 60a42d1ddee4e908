/**
 * The issue year the parser reports: the publish-info year, else the
 * title-info date, whichever first gives a non-zero year. The parser's
 * loop that computes it is `FictionBook.FictionBookParser.GetIssueDate`.
 */
module IssueDate {
  import opened Wrappers
  import opened PhpStrings
  import opened Collector

  /**
   * One date: longer than four characters, it goes through the date parser
   * `parseYear` (None when the parser throws) and gives its year; otherwise
   * it is cast to int.
   */
  function ConvertDate(d: string, parseYear: string -> Option<int>): Option<int> {
    if |d| > 4 then parseYear(d) else Some(IntCast(d))
  }

  /** The date is tried and converts. */
  predicate Converts(d: string, parseYear: string -> Option<int>) {
    !Empty(d) && ConvertDate(d, parseYear).Some?
  }

  /** The date is tried and gives a non-zero year, which ends the search. */
  predicate YieldsYear(d: string, parseYear: string -> Option<int>) {
    Converts(d, parseYear) && ConvertDate(d, parseYear).value != 0
  }

  /** The dates tried, in order: the publish-info year, then the title-info date, each when not empty. */
  function DatesOf(raw: RawFieldMap): (r: seq<string>)
    ensures |r| <= 2 && forall i :: 0 <= i < |r| ==> !Empty(r[i])
    ensures !Empty(Get(raw, Year)) ==> |r| >= 1 && r[0] == Get(raw, Year)
    ensures Empty(Get(raw, Year)) && !Empty(Get(raw, Date)) ==> r == [Get(raw, Date)]
  {
    (if !Empty(Get(raw, Year)) then [Get(raw, Year)] else []) +
    (if !Empty(Get(raw, Date)) then [Get(raw, Date)] else [])
  }

  /**
   * `getIssueDate` over the dates tried: the first non-zero year; failing
   * that 0 when some date converted to 0; null when none converted.
   */
  function IssueDateOf(dates: seq<string>, parseYear: string -> Option<int>): Option<int>
    decreases |dates|
  {
    if dates == [] then None
    else
      var c := if Empty(dates[0]) then None else ConvertDate(dates[0], parseYear);
      if c.Some? && c.value != 0 then c
      else
        var rest := IssueDateOf(dates[1..], parseYear);
        if rest.None? then c else rest
  }

  /**
   * The issue date is null exactly when no date converts; it is a non-zero
   * year exactly when some date gives one, and then it is the year of the
   * first such date.
   */
  lemma {:induction false} IssueDateMeaning(dates: seq<string>, parseYear: string -> Option<int>)
    ensures var r := IssueDateOf(dates, parseYear);
            r.None? <==> forall i :: 0 <= i < |dates| ==> !Converts(dates[i], parseYear)
    ensures var r := IssueDateOf(dates, parseYear);
            (r.Some? && r.value != 0) <==> exists i :: 0 <= i < |dates| && YieldsYear(dates[i], parseYear)
    ensures var r := IssueDateOf(dates, parseYear);
            r.Some? && r.value != 0 ==>
              exists i :: 0 <= i < |dates| && ConvertDate(dates[i], parseYear) == r &&
                          forall j :: 0 <= j < i ==> !YieldsYear(dates[j], parseYear)
    decreases |dates|
  {
    if dates != [] {
      var tail := dates[1..];
      IssueDateMeaning(tail, parseYear);
      assert forall i :: 1 <= i < |dates| ==> dates[i] == tail[i - 1];
      var r := IssueDateOf(dates, parseYear);
      var rest := IssueDateOf(tail, parseYear);
      if !YieldsYear(dates[0], parseYear) && rest.Some? && rest.value != 0 {
        var k :| 0 <= k < |tail| && ConvertDate(tail[k], parseYear) == rest &&
                 forall j :: 0 <= j < k ==> !YieldsYear(tail[j], parseYear);
        assert ConvertDate(dates[k + 1], parseYear) == r;
        assert forall j :: 0 <= j < k + 1 ==> !YieldsYear(dates[j], parseYear);
      }
    }
  }

  /** A publish-info year that gives a non-zero year is the issue date, whatever the title-info date says. */
  lemma PublishYearWins(raw: RawFieldMap, parseYear: string -> Option<int>)
    requires YieldsYear(Get(raw, Year), parseYear)
    ensures IssueDateOf(DatesOf(raw), parseYear) == ConvertDate(Get(raw, Year), parseYear)
  {
    assert DatesOf(raw)[0] == Get(raw, Year);
  }

  /** Without a usable publish-info year, a title-info date giving a non-zero year is the issue date. */
  lemma TitleDateFallback(raw: RawFieldMap, parseYear: string -> Option<int>)
    requires !YieldsYear(Get(raw, Year), parseYear) && YieldsYear(Get(raw, Date), parseYear)
    ensures IssueDateOf(DatesOf(raw), parseYear) == ConvertDate(Get(raw, Date), parseYear)
  {
    var dates := DatesOf(raw);
    if !Empty(Get(raw, Year)) {
      assert dates == [Get(raw, Year), Get(raw, Date)];
      assert dates[1..] == [Get(raw, Date)];
    }
  }

  function Pow10(k: nat): nat {
    if k == 0 then 1 else 10 * Pow10(k - 1)
  }

  /** A number below 10^w is printed with at most w digits. */
  lemma {:induction false} DecimalWidth(n: nat, w: nat)
    requires 1 <= w && n < Pow10(w)
    ensures |NatToDecimal(n)| <= w
    decreases w
  {
    if n >= 10 {
      assert w >= 2;
      DecimalWidth(n / 10, w - 1);
    }
  }

  lemma IntCastZero()
    ensures IntCast("0") == 0
  {
    assert TrimLeft("0", NumericSpace) == "0";
    assert LeadingDigits("0") == "0";
  }

  /** A publish-info year written as a positive number of at most four digits is the issue date. */
  lemma FourDigitYear(raw: RawFieldMap, parseYear: string -> Option<int>, y: int)
    requires 0 < y < 10000 && Get(raw, Year) == IntToDecimal(y)
    ensures IssueDateOf(DatesOf(raw), parseYear) == Some(y)
  {
    var year := Get(raw, Year);
    assert Pow10(4) == 10000;
    DecimalWidth(y, 4);
    IntCastOfDecimal(y);
    assert IntCast(year) == y;
    assert year != "0" by {
      IntCastZero();
    }
    assert ConvertDate(year, parseYear) == Some(y);
    PublishYearWins(raw, parseYear);
  }
}
