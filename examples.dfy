/** The examples of the `from_duration_string` and `format_duration`
    docstrings, and inputs the parser refuses, each proved about the model.
    Every example is assembled from small steps: the value of each token,
    then one delimiter at a time. The `Token*`, `Split*`, `Render*` and
    literal `Decompose*` lemmas are proof scaffolding that keeps each step
    small for the solver; they state nothing beyond the examples. */
module DurationExamples {
  import opened Text
  import opened Units
  import opened DurationParse
  import opened DurationFormat

  // ----------------------------------------------------------------- tokens

  lemma Token1h()
    ensures SegmentValue("1h") == Ok(H)
  {
    SegmentOfToken("1", "h");
    assert "1" + "h" == "1h";
  }

  lemma Token2h()
    ensures SegmentValue("2h") == Ok(2 * H)
  {
    SegmentOfToken("2", "h");
    assert "2" + "h" == "2h";
  }

  lemma Token3h()
    ensures SegmentValue("3h") == Ok(3 * H)
  {
    SegmentOfToken("3", "h");
    assert "3" + "h" == "3h";
  }

  lemma Token5m()
    ensures SegmentValue("5m") == Ok(5 * M)
  {
    SegmentOfToken("5", "m");
    assert "5" + "m" == "5m";
  }

  lemma Token1w()
    ensures SegmentValue("1w") == Ok(W)
  {
    SegmentOfToken("1", "w");
    assert "1" + "w" == "1w";
  }

  lemma Token2d()
    ensures SegmentValue("2d") == Ok(2 * D)
  {
    SegmentOfToken("2", "d");
    assert "2" + "d" == "2d";
  }

  lemma Token8h()
    ensures SegmentValue("8h") == Ok(8 * H)
  {
    SegmentOfToken("8", "h");
    assert "8" + "h" == "8h";
  }

  lemma Token49m()
    ensures SegmentValue("49m") == Ok(49 * M)
  {
    SegmentOfToken("49", "m");
    assert "49" + "m" == "49m";
  }

  lemma Token3s()
    ensures SegmentValue("3s") == Ok(3 * S)
  {
    SegmentOfToken("3", "s");
    assert "3" + "s" == "3s";
  }

  // ------------------------------------------------------------ lone tokens

  /** "1h" is one hour. */
  lemma ParseOneHour()
    ensures Parse("1h", ' ') == Ok(3600000)
  {
    Token1h();
    ParseSingle("1h", ' ');
  }

  lemma ParseTwoHours()
    ensures Parse("2h", ' ') == Ok(2 * H)
  {
    Token2h();
    ParseSingle("2h", ' ');
  }

  lemma ParseThreeHours()
    ensures Parse("3h", ' ') == Ok(10800000)
  {
    Token3h();
    ParseSingle("3h", ' ');
  }

  lemma ParseFiveMinutes()
    ensures Parse("5m", ' ') == Ok(5 * M)
  {
    Token5m();
    ParseSingle("5m", ' ');
  }

  /** "1w" is one week. */
  lemma ParseOneWeek()
    ensures Parse("1w", ' ') == Ok(604800000)
  {
    Token1w();
    ParseSingle("1w", ' ');
  }

  lemma ParseThreeSeconds()
    ensures Parse("3s", ',') == Ok(3 * S)
  {
    Token3s();
    ParseSingle("3s", ',');
  }

  // -------------------------------------------------- one delimiter at a time

  lemma SplitHoursMinutes()
    ensures Parse("3h 5m", ' ') == Then(SegmentValue("3h"), Parse("5m", ' '))
  {
    assert "3h" + [' '] + "5m" == "3h 5m";
    ParseCons("3h", "5m", ' ');
  }

  lemma SplitHourMinutes()
    ensures Parse("1h 5m", ' ') == Then(SegmentValue("1h"), Parse("5m", ' '))
  {
    assert "1h" + [' '] + "5m" == "1h 5m";
    ParseCons("1h", "5m", ' ');
  }

  lemma SplitMinutesHour()
    ensures Parse("5m 1h", ' ') == Then(SegmentValue("5m"), Parse("1h", ' '))
  {
    assert "5m" + [' '] + "1h" == "5m 1h";
    ParseCons("5m", "1h", ' ');
  }

  lemma SplitHourHours()
    ensures Parse("1h 2h", ' ') == Then(SegmentValue("1h"), Parse("2h", ' '))
  {
    assert "1h" + [' '] + "2h" == "1h 2h";
    ParseCons("1h", "2h", ' ');
  }

  lemma SplitMinutesSeconds()
    ensures Parse("49m,3s", ',') == Then(SegmentValue("49m"), Parse("3s", ','))
  {
    assert "49m" + [','] + "3s" == "49m,3s";
    ParseCons("49m", "3s", ',');
  }

  lemma SplitHoursRest()
    ensures Parse("8h,49m,3s", ',') == Then(SegmentValue("8h"), Parse("49m,3s", ','))
  {
    assert "8h" + [','] + "49m,3s" == "8h,49m,3s";
    ParseCons("8h", "49m,3s", ',');
  }

  lemma SplitDaysRest()
    ensures Parse("2d,8h,49m,3s", ',') == Then(SegmentValue("2d"), Parse("8h,49m,3s", ','))
  {
    assert "2d" + [','] + "8h,49m,3s" == "2d,8h,49m,3s";
    ParseCons("2d", "8h,49m,3s", ',');
  }

  // ---------------------------------------------------- the docstring sums

  /** "3h 5m" is three hours and five minutes. */
  lemma ParseHoursMinutes()
    ensures Parse("3h 5m", ' ') == Ok(11100000)
  {
    SplitHoursMinutes();
    ParseFiveMinutes();
    Token3h();
  }

  lemma ParseMinutesSeconds()
    ensures Parse("49m,3s", ',') == Ok(49 * M + 3 * S)
  {
    SplitMinutesSeconds();
    ParseThreeSeconds();
    Token49m();
  }

  lemma ParseHoursMinutesSeconds()
    ensures Parse("8h,49m,3s", ',') == Ok(8 * H + 49 * M + 3 * S)
  {
    SplitHoursRest();
    ParseMinutesSeconds();
    Token8h();
  }

  /** "2d,8h,49m,3s" with the delimiter ',' is two days, eight hours,
      forty-nine minutes and three seconds. */
  lemma ParseCommaSeparated()
    ensures Parse("2d,8h,49m,3s", ',') == Ok(204543000)
  {
    SplitDaysRest();
    ParseHoursMinutesSeconds();
    Token2d();
  }

  /** The order of the segments does not matter: "5m 1h" and "1h 5m" are
      both an hour and five minutes. */
  lemma ParseEitherOrder()
    ensures Parse("5m 1h", ' ') == Parse("1h 5m", ' ') == Ok(3900000)
  {
    SplitHourMinutes();
    SplitMinutesHour();
    ParseFiveMinutes();
    ParseOneHour();
    Token1h();
    Token5m();
  }

  /** A unit may repeat and its amounts add up: "1h 2h" is "3h". */
  lemma ParseRepeatedUnit()
    ensures Parse("1h 2h", ' ') == Parse("3h", ' ') == Ok(10800000)
  {
    SplitHourHours();
    ParseTwoHours();
    ParseThreeHours();
    Token1h();
  }

  // ------------------------------------------------------- refused strings

  /** Without the delimiter between them, "1h2m" is one segment of which the
      pattern matches only "1h": the wrong-delimiter error. */
  lemma ParseMissingDelimiter()
    ensures Parse("1h2m", ' ') == Err(PartialMatch("1h2m"))
  {
    var seg := "1h2m";
    CountLeadingIs(seg, Digit, 1);
    assert seg[1..] == "h2m";
    CountLeadingIs("h2m", Letter, 1);
    ParseSingle(seg, ' ');
  }

  /** A segment that does not start with a digit does not match. */
  lemma ParseLetterFirst()
    ensures Parse("h5", ' ') == Err(NoMatch("h5"))
  {
    CountLeadingIs("h5", Digit, 0);
    ParseSingle("h5", ' ');
  }

  /** The empty string is one empty segment, which does not match, whatever
      the delimiter. */
  lemma ParseEmpty(delim: char)
    ensures Parse("", delim) == Err(NoMatch(""))
  {
    StripUnchanged("");
    TotalSingle("");
  }

  /** A string of whitespace strips to the empty string. */
  lemma ParseBlank(delim: char)
    ensures Parse("  ", delim) == Err(NoMatch(""))
  {
    CountLeadingIs("  ", Space, 2);
    ParseEmpty(delim);
  }

  lemma SplitDoubledDelimiter()
    ensures Parse("1h  5m", ' ') == Total(["1h", "", "5m"])
  {
    var ts := ["1h", "", "5m"];
    assert Join(ts[2..], ' ') == "5m";
    assert Join(ts[1..], ' ') == " 5m";
    assert Join(ts, ' ') == "1h  5m";
    ParseJoined(ts, ' ');
  }

  lemma TotalDoubledDelimiter()
    ensures Total(["1h", "", "5m"]) == Then(SegmentValue("1h"), Then(SegmentValue(""), SegmentValue("5m")))
  {
    assert ["1h", "", "5m"] == ["1h"] + ["", "5m"];
    assert ["", "5m"] == [""] + ["5m"];
    TotalCons("1h", ["", "5m"]);
    TotalCons("", ["5m"]);
    TotalSingle("5m");
  }

  /** A doubled delimiter leaves an empty segment between, which does not
      match. */
  lemma ParseDoubledDelimiter()
    ensures Parse("1h  5m", ' ') == Err(NoMatch(""))
  {
    SplitDoubledDelimiter();
    TotalDoubledDelimiter();
    Token1h();
  }

  /** "x" is not a suffix of the table. */
  lemma ParseUnknownUnit()
    ensures Parse("5x", ' ') == Err(UnknownUnit("x"))
  {
    SegmentOfToken("5", "x");
    assert "5" + "x" == "5x";
    ParseSingle("5x", ' ');
  }

  /** Suffixes are compared exactly: "H" is not "h". */
  lemma ParseUpperCaseUnit()
    ensures Parse("5H", ' ') == Err(UnknownUnit("H"))
  {
    SegmentOfToken("5", "H");
    assert "5" + "H" == "5H";
    ParseSingle("5H", ' ');
  }

  // ------------------------------------------------------------- formatting

  lemma RenderedOne(p: Part)
    ensures Rendered([p]) == [Render(p)]
  {
  }

  lemma RenderedTwo(p: Part, q: Part)
    ensures Rendered([p, q]) == [Render(p), Render(q)]
  {
  }

  lemma DecomposeWeek()
    ensures Decompose(604800000, 0) == [Part(1, "w", 604800000)]
  {
    FmtArrValues();
    DecomposeZero(1);
    DecomposeUnfold(604800000, 0);
  }

  /** One week is the single part "1w". */
  lemma FormatOneWeek()
    ensures Format(604800000) == "1w"
  {
    DecomposeWeek();
    RenderedOne(Part(1, "w", 604800000));
    assert NatToString(1) == "1";
  }

  /** `format_duration(from_duration_string("1w"))` is "1w". */
  lemma WeekRoundTrip()
    ensures Parse("1w", ' ').Ok? && Format(Parse("1w", ' ').value) == "1w"
  {
    ParseOneWeek();
    FormatOneWeek();
  }

  /** The week and the day take nothing from less than a day. */
  lemma DecomposeBelowDay(n: nat)
    requires n < 86400000
    ensures Decompose(n, 0) == Decompose(n, 2)
  {
    FmtArrValues();
    assert n / 604800000 == 0 && n % 604800000 == n;
    assert n / 86400000 == 0 && n % 86400000 == n;
    DecomposeUnfold(n, 1);
    DecomposeUnfold(n, 0);
  }

  lemma DecomposeHourQuarters()
    ensures Decompose(6300000, 2) == [Part(1, "h", 3600000), Part(45, "m", 60000)]
  {
    FmtArrValues();
    DecomposeZero(4);
    DecomposeUnfold(2700000, 3);
    DecomposeUnfold(6300000, 2);
  }

  /** An hour and three quarters is "1h 45m", the docstring's example. */
  lemma FormatHourQuarters()
    ensures Format(6300000) == "1h 45m"
  {
    DecomposeBelowDay(6300000);
    DecomposeHourQuarters();
    RenderHourQuarters();
    assert Join(["1h", "45m"], ' ') == "1h 45m";
  }

  lemma RenderHourQuarters()
    ensures Rendered([Part(1, "h", 3600000), Part(45, "m", 60000)]) == ["1h", "45m"]
  {
    RenderedTwo(Part(1, "h", 3600000), Part(45, "m", 60000));
    assert NatToString(1) == "1";
    assert NatToString(45) == "45";
    assert Render(Part(1, "h", 3600000)) == "1h";
    assert Render(Part(45, "m", 60000)) == "45m";
  }

  lemma DecomposeHour()
    ensures Decompose(3600000, 2) == [Part(1, "h", 3600000)]
  {
    FmtArrValues();
    DecomposeZero(3);
    DecomposeUnfold(3600000, 2);
  }

  /** One hour is "1h". */
  lemma FormatOneHour()
    ensures Format(3600000) == "1h"
  {
    DecomposeBelowDay(3600000);
    DecomposeHour();
    RenderedOne(Part(1, "h", 3600000));
    assert NatToString(1) == "1";
  }

  lemma DecomposeFiveMillis()
    ensures Decompose(5, 0) == [Part(5, "ms", 1)]
  {
    FmtArrValues();
    DecomposeUnfold(5, 5);
    DecomposeUnfold(5, 4);
    DecomposeUnfold(5, 3);
    DecomposeUnfold(5, 2);
    DecomposeBelowDay(5);
  }

  /** Five milliseconds before is formatted as five milliseconds. */
  lemma FormatNegativeMillis()
    ensures Format(-5) == "5ms"
  {
    FormatNegative(5);
    DecomposeFiveMillis();
    RenderedOne(Part(5, "ms", 1));
    assert NatToString(5) == "5";
  }
}
