/** The embedded-value scanner on the inputs of its unit tests. */
module EmbeddedValueExamples {
  import opened Outcomes
  import opened Decimal
  import opened Text
  import opened EmbeddedValue
  import opened EmbeddedValueProperties
  import IntegerParsers

  /** The unit-test cases that succeed, and one with the directive after another. */
  lemma SingleHeaderH()
    ensures TimeSpanSeconds(["h=1"], "h") == Some(1)
  {
    var h := "h=1";
    assert MatchesAt(h, "h", 0);
    assert IndexOf(h, "h") == 0;
    assert h[1..2] == "=";
    assert h[2..3] == "1";
    DirectiveDigitsAt(h, 1, 1, 2, 3);
    assert ValueDigits(h, "h") == Some("1");
    TimeSpanDigitsSingle(h, "h");
    assert DigitsValue("1") == 1;
    assert Seconds("1") == 1;
  }

  lemma SpacesBeforeEquals()
    ensures TimeSpanSeconds(["header1   =45, header2=80"], "header1") == Some(45)
  {
    var h := "header1   =45, header2=80";
    assert h[0..7] == "header1";
    assert MatchesAt(h, "header1", 0);
    assert IndexOf(h, "header1") == 0;
    assert h[7..11] == "   =";
    assert h[11..13] == "45";
    DirectiveDigitsAt(h, 7, 10, 11, 13);
    assert ValueDigits(h, "header1") == Some("45");
    TimeSpanDigitsSingle(h, "header1");
    DigitsValueSnoc("4", '5');
    assert "4" + ['5'] == "45";
    assert DigitsValue("45") == 45;
    assert Seconds("45") == 45;
  }

  lemma SecondDirective()
    ensures TimeSpanSeconds(["a=1, h= 2"], "h") == Some(2)
  {
    var h := "a=1, h= 2";
    assert MatchesAt(h, "h", 5);
    MismatchAt(h, "h", 0, 0);
    MismatchAt(h, "h", 1, 0);
    MismatchAt(h, "h", 2, 0);
    MismatchAt(h, "h", 3, 0);
    MismatchAt(h, "h", 4, 0);
    assert IndexOf(h, "h") == 5;
    assert h[6..8] == "= ";
    assert h[8..9] == "2";
    DirectiveDigitsAt(h, 6, 6, 8, 9);
    assert ValueDigits(h, "h") == Some("2");
    TimeSpanDigitsSingle(h, "h");
    assert DigitsValue("2") == 2;
    assert Seconds("2") == 2;
  }

  lemma FirstDirective()
    ensures TimeSpanSeconds(["header1=3, header2=10"], "header1") == Some(3)
  {
    var h := "header1=3, header2=10";
    assert h[0..7] == "header1";
    assert MatchesAt(h, "header1", 0);
    assert IndexOf(h, "header1") == 0;
    assert h[7..8] == "=";
    assert h[8..9] == "3";
    DirectiveDigitsAt(h, 7, 7, 8, 9);
    assert ValueDigits(h, "header1") == Some("3");
    TimeSpanDigitsSingle(h, "header1");
    assert DigitsValue("3") == 3;
    assert Seconds("3") == 3;
  }

  lemma SpacesAfterEquals()
    ensures TimeSpanSeconds(["header1=   89   , header2=22"], "header1") == Some(89)
  {
    var h := "header1=   89   , header2=22";
    assert h[0..7] == "header1";
    assert MatchesAt(h, "header1", 0);
    assert IndexOf(h, "header1") == 0;
    assert h[7..11] == "=   ";
    assert h[11..13] == "89";
    DirectiveDigitsAt(h, 7, 7, 11, 13);
    assert ValueDigits(h, "header1") == Some("89");
    TimeSpanDigitsSingle(h, "header1");
    DigitsValueSnoc("8", '9');
    assert "8" + ['9'] == "89";
    assert DigitsValue("89") == 89;
    assert Seconds("89") == 89;
  }

  lemma EmptyValueNotRetried()
    ensures TimeSpanSeconds(["header1=, header2=10"], "header1") == None
  {
    var h := "header1=, header2=10";
    assert h[0..7] == "header1";
    assert MatchesAt(h, "header1", 0);
    assert IndexOf(h, "header1") == 0;
    SkipSpacesAndEqualsAt(h, 7, 8);
    DigitRunEndAt(h, 8, 8);
    assert DirectiveDigits(h, 7) == None;
    assert ValueDigits(h, "header1") == None;
    TimeSpanDigitsSingle(h, "header1");
  }

  /** The unit-test cases that fail. */
  lemma NoDigitsAfterEquals()
    ensures TimeSpanSeconds(["h="], "h") == None
  {
    var h := "h=";
    assert MatchesAt(h, "h", 0);
    assert IndexOf(h, "h") == 0;
    SkipSpacesAndEqualsAt(h, 1, 2);
    assert DirectiveDigits(h, 1) == None;
    assert ValueDigits(h, "h") == None;
    TimeSpanDigitsSingle(h, "h");
  }

  lemma NoEqualsBeforeComma()
    ensures TimeSpanSeconds(["header1   , header2=80"], "header1") == None
  {
    var h := "header1   , header2=80";
    assert h[0..7] == "header1";
    assert MatchesAt(h, "header1", 0);
    assert IndexOf(h, "header1") == 0;
    SkipSpacesAndEqualsAt(h, 7, 10);
    assert h[7..10] == "   ";
    EqualsBetweenIff(h, 7, 10);
    assert DirectiveDigits(h, 7) == None;
    assert ValueDigits(h, "header1") == None;
    TimeSpanDigitsSingle(h, "header1");
  }

  lemma TargetNotPresent()
    ensures TimeSpanSeconds(["h=10"], "header") == None
  {
    TimeSpanDigitsSingle("h=10", "header");
  }

  lemma EmptyInputs()
    ensures TimeSpanSeconds([""], "") == None
    ensures TimeSpanSeconds([], "") == None
  {
    assert MatchesAt("", "", 0);
    TimeSpanDigitsSingle("", "");
  }

  /** A later header value is not consulted once the first one holding the target fails. */
  lemma FailureIsTerminal()
    ensures TimeSpanSeconds(["max-age=", "max-age=10"], "max-age") == None
  {
    var h := "max-age=";
    assert h[0..7] == "max-age";
    assert MatchesAt(h, "max-age", 0);
    assert IndexOf(h, "max-age") == 0;
    SkipSpacesAndEqualsAt(h, 7, 8);
    assert DirectiveDigits(h, 7) == None;
    assert ValueDigits(h, "max-age") == None;
    assert Contains([h], "max-age");
    FirstMatchDecidesDigits([h], ["max-age=10"], "max-age");
    TimeSpanDigitsSingle(h, "max-age");
    assert [h] + ["max-age=10"] == ["max-age=", "max-age=10"];
  }

  /** The value of the twelve digits just below and at the end of the `TimeSpan` range. */
  lemma EdgeDigitsValues()
    ensures DigitsValue("922337203685") == MaxTimeSpanSeconds
    ensures DigitsValue("922337203686") == MaxTimeSpanSeconds + 1
  {
    IntegerParsers.Int64MaxPrefixValueHead();
    var s: seq<char> := "922337203";
    DigitsValueSnoc(s, '6'); s := s + ['6'];
    DigitsValueSnoc(s, '8'); s := s + ['8'];
    assert DigitsValue(s) == 92233720368;
    assert s == "92233720368";
    DigitsValueSnoc(s, '5');
    assert s + ['5'] == "922337203685";
    DigitsValueSnoc(s, '6');
    assert s + ['6'] == "922337203686";
  }

  /** The largest whole number of seconds a `TimeSpan` holds is returned as a duration. */
  lemma LongestDuration()
    ensures TimeSpanOutcome(["h=922337203685"], "h") == Success(Some(922337203685))
  {
    EdgeDigitsValues();
    LoneDirective("922337203685");
    assert "h=" + "922337203685" == "h=922337203685";
  }

  /** One second more makes `TimeSpan.FromSeconds` raise an overflow instead of returning. */
  lemma DurationOverflow()
    ensures TimeSpanOutcome(["h=922337203686"], "h") == Failure(OverflowError)
  {
    EdgeDigitsValues();
    LoneDirective("922337203686");
    assert "h=" + "922337203686" == "h=922337203686";
  }
}
