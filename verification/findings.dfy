/**
 * The digit run of `TryParseTimeSpan` is read by the unchecked windowed parser, so a run
 * beyond `long.MaxValue` wraps around; this module sets the code as written beside the
 * evidently intended width-checked reading.
 */
module EmbeddedValueFindings {
  import opened Outcomes
  import opened Decimal
  import opened FixedWidth
  import opened Text
  import opened EmbeddedValue
  import opened EmbeddedValueProperties
  import IntegerParsers

  /**
   * The seconds as evidently intended: the digit run read exactly by the width-checked
   * parser, refusing a run beyond `long.MaxValue` instead of wrapping it.
   */
  function TimeSpanSecondsChecked(headerValues: seq<seq<char>>, target: seq<char>): (r: Option<int>)
    ensures r.Some? <==> TimeSpanDigits(headerValues, target).Some?
                         && DigitsValue(TimeSpanDigits(headerValues, target).value) <= Int64Max
    ensures r.Some? ==> r.value == DigitsValue(TimeSpanDigits(headerValues, target).value)
    ensures r.Some? ==> 0 <= r.value <= Int64Max && r == TimeSpanSeconds(headerValues, target)
  {
    match TimeSpanDigits(headerValues, target)
    case None => None
    case Some(digits) =>
      var parsed := IntegerParsers.TryParseInt64(digits);
      if parsed.success then Some(parsed.value) else None
  }

  /**
   * As written, a digit run beyond `long.MaxValue` wraps: "h=18446744073709551617", which is
   * 2^64 + 1 seconds, is returned as a duration of 1 second; the corrected reading refuses it.
   */
  lemma WrappedSeconds()
    ensures TimeSpanDigits(["h=18446744073709551617"], "h") == Some("18446744073709551617")
    ensures DigitsValue("18446744073709551617") == 0x1_0000_0000_0000_0001
    ensures TimeSpanSeconds(["h=18446744073709551617"], "h") == Some(1)
    ensures TimeSpanOutcome(["h=18446744073709551617"], "h") == Success(Some(1))
    ensures TimeSpanSecondsChecked(["h=18446744073709551617"], "h") == None
  {
    OverflowingDirective();
    OverflowingDigitsValue();
    var digits := "18446744073709551617";
    Wrap64Congruent(0x1_0000_0000_0000_0001, 1, 1);
    assert Seconds(digits) == 1;
    assert IntegerParsers.TryParseInt64(digits).success == false;
  }

  /**
   * Most wrapped runs land outside the `TimeSpan` range instead: "h=9223372036854775808",
   * which is 2^63 seconds, wraps to -2^63 and `TimeSpan.FromSeconds` raises an overflow,
   * where the corrected reading refuses the run.
   */
  lemma WrappedToOverflow()
    ensures TimeSpanSeconds(["h=9223372036854775808"], "h") == Some(Int64Min)
    ensures TimeSpanOutcome(["h=9223372036854775808"], "h") == Failure(OverflowError)
    ensures TimeSpanSecondsChecked(["h=9223372036854775808"], "h") == None
  {
    var digits := "9223372036854775808";
    Int64MaxPlusOneValue();
    LoneDirective(digits);
    assert "h=" + digits == "h=9223372036854775808";
    Wrap64Congruent(Int64Max + 1, Int64Min, 1);
    assert Seconds(digits) == Int64Min;
  }

  /** The value of the run "9223372036854775808", 2^63. */
  lemma Int64MaxPlusOneValue()
    ensures AllDigits("9223372036854775808")
    ensures DigitsValue("9223372036854775808") == Int64Max + 1
  {
    var prefix := "922337203685477580";
    IntegerParsers.Int64MaxPrefixValue();
    assert AllDigits(prefix);
    DigitsValueSnoc(prefix, '8');
    assert prefix + ['8'] == "9223372036854775808";
  }

  /** The digits read from "h=18446744073709551617". */
  lemma OverflowingDirective()
    ensures TimeSpanDigits(["h=18446744073709551617"], "h") == Some("18446744073709551617")
  {
    var h := "h=18446744073709551617";
    assert MatchesAt(h, "h", 0);
    assert IndexOf(h, "h") == 0;
    OverflowingDigitsValue();
    assert h[2..] == "18446744073709551617";
    DirectiveDigitsToEnd(h, 1, "18446744073709551617");
    assert ValueDigits(h, "h") == Some("18446744073709551617");
    TimeSpanDigitsSingle(h, "h");
  }

  /** The first ten digits of the run. */
  lemma OverflowingDigitsHead()
    ensures DigitsValue("1844674407") == 1844674407
  {
    var s: seq<char> := [];
    DigitsValueSnoc(s, '1'); s := s + ['1'];
    assert DigitsValue(s) == 1;
    DigitsValueSnoc(s, '8'); s := s + ['8'];
    assert DigitsValue(s) == 18;
    DigitsValueSnoc(s, '4'); s := s + ['4'];
    assert DigitsValue(s) == 184;
    DigitsValueSnoc(s, '4'); s := s + ['4'];
    assert DigitsValue(s) == 1844;
    DigitsValueSnoc(s, '6'); s := s + ['6'];
    assert DigitsValue(s) == 18446;
    DigitsValueSnoc(s, '7'); s := s + ['7'];
    assert DigitsValue(s) == 184467;
    DigitsValueSnoc(s, '4'); s := s + ['4'];
    assert DigitsValue(s) == 1844674;
    DigitsValueSnoc(s, '4'); s := s + ['4'];
    assert DigitsValue(s) == 18446744;
    DigitsValueSnoc(s, '0'); s := s + ['0'];
    assert DigitsValue(s) == 184467440;
    DigitsValueSnoc(s, '7'); s := s + ['7'];
    assert DigitsValue(s) == 1844674407;
    assert s == "1844674407";
  }

  /** The first fifteen digits of the run. */
  lemma OverflowingDigitsMiddle()
    ensures DigitsValue("184467440737095") == 184467440737095
  {
    OverflowingDigitsHead();
    var s: seq<char> := "1844674407";
    DigitsValueSnoc(s, '3'); s := s + ['3'];
    assert DigitsValue(s) == 18446744073;
    DigitsValueSnoc(s, '7'); s := s + ['7'];
    assert DigitsValue(s) == 184467440737;
    DigitsValueSnoc(s, '0'); s := s + ['0'];
    assert DigitsValue(s) == 1844674407370;
    DigitsValueSnoc(s, '9'); s := s + ['9'];
    assert DigitsValue(s) == 18446744073709;
    DigitsValueSnoc(s, '5'); s := s + ['5'];
    assert DigitsValue(s) == 184467440737095;
    assert s == "184467440737095";
  }

  /** The value of the digit run, 2^64 + 1. */
  lemma OverflowingDigitsValue()
    ensures AllDigits("18446744073709551617")
    ensures DigitsValue("18446744073709551617") == 0x1_0000_0000_0000_0001
  {
    OverflowingDigitsMiddle();
    var s: seq<char> := "184467440737095";
    assert AllDigits(s);
    DigitsValueSnoc(s, '5'); s := s + ['5'];
    assert DigitsValue(s) == 1844674407370955;
    DigitsValueSnoc(s, '1'); s := s + ['1'];
    assert DigitsValue(s) == 18446744073709551;
    DigitsValueSnoc(s, '6'); s := s + ['6'];
    assert DigitsValue(s) == 184467440737095516;
    DigitsValueSnoc(s, '1'); s := s + ['1'];
    assert DigitsValue(s) == 1844674407370955161;
    DigitsValueSnoc(s, '7'); s := s + ['7'];
    assert DigitsValue(s) == 18446744073709551617;
    assert s == "18446744073709551617";
  }
}
