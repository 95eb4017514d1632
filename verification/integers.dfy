/**
 * Integer parsing: the whole-string `TryParseInt32`/`TryParseInt64`, which defer to the
 * framework's width-checked digit-only parse, and the windowed variants over a
 * `StringSegment`, which accumulate digits in unchecked arithmetic.
 */
module IntegerParsers {
  import opened Outcomes
  import opened Decimal
  import opened FixedWidth

  /** What a `Try…` method reports: its boolean result and its out value. */
  datatype Parsed = Parsed(success: bool, value: int)

  /**
   * Width-checked accumulation of a digit string, left to right: `None` as soon as a
   * non-digit appears or the value exceeds `max`.
   */
  function Accumulate(s: seq<char>, max: nat): (r: Option<nat>)
    ensures r.Some? <==> AllDigits(s) && DigitsValue(s) <= max
    ensures r.Some? ==> r.value == DigitsValue(s)
    decreases |s|
  {
    if |s| == 0 then Some(0)
    else
      match Accumulate(s[..|s| - 1], max)
      case None => None
      case Some(acc) =>
        if !IsDigit(s[|s| - 1]) || acc * 10 + DigitValue(s[|s| - 1]) > max then None
        else Some(acc * 10 + DigitValue(s[|s| - 1]))
  }

  /**
   * The length of `value` without its trailing run of NUL characters. The framework's number
   * parser accepts any number of `'\0'` after the digits, and nothing else after them.
   */
  function NulTrimmedLength(value: seq<char>): (n: nat)
    ensures n <= |value|
    ensures forall k :: n <= k < |value| ==> value[k] == '\0'
    ensures n == 0 || value[n - 1] != '\0'
    decreases |value|
  {
    if |value| == 0 || value[|value| - 1] != '\0' then |value|
    else NulTrimmedLength(value[..|value| - 1])
  }

  /** The framework's digit-only parse bounded by `max`: a non-empty digit run, then only NULs. */
  function ParseDigits(value: seq<char>, max: nat): (r: Parsed)
    ensures var n := NulTrimmedLength(value);
            r.success <==> n > 0 && AllDigits(value[..n]) && DigitsValue(value[..n]) <= max
    ensures r.success ==> r.value == DigitsValue(value[..NulTrimmedLength(value)])
    ensures !r.success ==> r.value == 0
  {
    var n := NulTrimmedLength(value);
    if n == 0 then Parsed(false, 0)
    else
      match Accumulate(value[..n], max)
      case None => Parsed(false, 0)
      case Some(v) => Parsed(true, v)
  }

  /** A digit string ends in a digit, so it has no trailing NULs to trim. */
  lemma DigitsUntrimmed(value: seq<char>)
    ensures AllDigits(value) ==> NulTrimmedLength(value) == |value|
    ensures value[..|value|] == value
  {
  }

  /**
   * `int.TryParse(value, NumberStyles.None, NumberFormatInfo.InvariantInfo, out result)`:
   * a non-empty run of ASCII digits whose value fits in 32 bits, followed by nothing but NULs,
   * is accepted; a sign, a decimal point, a group separator or whitespace is refused, and a
   * refusal yields 0.
   */
  function TryParseInt32(value: seq<char>): (r: Parsed)
    ensures var n := NulTrimmedLength(value);
            r.success <==> n > 0 && AllDigits(value[..n]) && DigitsValue(value[..n]) <= Int32Max
    ensures r.success ==> r.value == DigitsValue(value[..NulTrimmedLength(value)])
    ensures !r.success ==> r.value == 0
    ensures AllDigits(value) ==> (r.success <==> |value| > 0 && DigitsValue(value) <= Int32Max)
    ensures AllDigits(value) && r.success ==> r.value == DigitsValue(value)
  {
    DigitsUntrimmed(value);
    ParseDigits(value, Int32Max)
  }

  /** `long.TryParse` with the same style: the bound is 2^63 - 1. */
  function TryParseInt64(value: seq<char>): (r: Parsed)
    ensures var n := NulTrimmedLength(value);
            r.success <==> n > 0 && AllDigits(value[..n]) && DigitsValue(value[..n]) <= Int64Max
    ensures r.success ==> r.value == DigitsValue(value[..NulTrimmedLength(value)])
    ensures !r.success ==> r.value == 0
    ensures AllDigits(value) ==> (r.success <==> |value| > 0 && DigitsValue(value) <= Int64Max)
    ensures AllDigits(value) && r.success ==> r.value == DigitsValue(value)
  {
    DigitsUntrimmed(value);
    ParseDigits(value, Int64Max)
  }

  /** NULs after a digit string change nothing: the parse reads the digits alone. */
  lemma TrailingNulsIgnored(digits: seq<char>, nuls: seq<char>)
    requires |digits| > 0 && AllDigits(digits)
    requires forall k :: 0 <= k < |nuls| ==> nuls[k] == '\0'
    ensures TryParseInt32(digits + nuls) == TryParseInt32(digits)
    ensures TryParseInt64(digits + nuls) == TryParseInt64(digits)
  {
    var v := digits + nuls;
    var n := NulTrimmedLength(v);
    assert IsDigit(v[|digits| - 1]);
    assert n == |digits|;
    assert v[..n] == digits;
    DigitsUntrimmed(digits);
  }

  /** Trailing NULs are accepted, a NUL alone is not, and a NUL before other text is refused. */
  lemma TrailingNulExamples()
    ensures TryParseInt32("1\0") == Parsed(true, 1)
    ensures TryParseInt64("0\0\0") == Parsed(true, 0)
    ensures TryParseInt32("\0") == Parsed(false, 0)
    ensures TryParseInt64("1\0a") == Parsed(false, 0)
  {
    TrailingNulsIgnored("1", "\0");
    assert "1" + "\0" == "1\0";
    TrailingNulsIgnored("0", "\0\0");
    assert "0" + "\0\0" == "0\0\0";
    assert NulTrimmedLength("\0"[..0]) == 0;
    assert !IsDigit("1\0a"[1]);
  }

  /** The inputs of the unit tests, with the outcomes they expect. */
  lemma WholeStringExamples()
    ensures TryParseInt64("0") == Parsed(true, 0)
    ensures TryParseInt64("") == Parsed(false, 0)
    ensures TryParseInt64("-1") == Parsed(false, 0)
    ensures TryParseInt64("a") == Parsed(false, 0)
    ensures TryParseInt64("1.1") == Parsed(false, 0)
    ensures TryParseInt32("0") == Parsed(true, 0)
    ensures TryParseInt32("1,000") == Parsed(false, 0)
    ensures TryParseInt32("-1") == Parsed(false, 0)
  {
    assert !IsDigit("-1"[0]);
    assert !IsDigit("1.1"[1]);
    assert !IsDigit("1,000"[1]);
    assert !IsDigit("a"[0]);
  }

  /** The value of the first eighteen digits of `long.MaxValue`. */
  lemma Int64MaxPrefixValueHead()
    ensures DigitsValue("922337203") == 922337203
  {
    var s: seq<char> := [];
    DigitsValueSnoc(s, '9'); s := s + ['9'];
    assert DigitsValue(s) == 9;
    DigitsValueSnoc(s, '2'); s := s + ['2'];
    assert DigitsValue(s) == 92;
    DigitsValueSnoc(s, '2'); s := s + ['2'];
    assert DigitsValue(s) == 922;
    DigitsValueSnoc(s, '3'); s := s + ['3'];
    assert DigitsValue(s) == 9223;
    DigitsValueSnoc(s, '3'); s := s + ['3'];
    assert DigitsValue(s) == 92233;
    DigitsValueSnoc(s, '7'); s := s + ['7'];
    assert DigitsValue(s) == 922337;
    DigitsValueSnoc(s, '2'); s := s + ['2'];
    assert DigitsValue(s) == 9223372;
    DigitsValueSnoc(s, '0'); s := s + ['0'];
    assert DigitsValue(s) == 92233720;
    DigitsValueSnoc(s, '3'); s := s + ['3'];
    assert DigitsValue(s) == 922337203;
    assert s == "922337203";
  }

  lemma Int64MaxPrefixValue()
    ensures DigitsValue("922337203685477580") == 922337203685477580
  {
    Int64MaxPrefixValueHead();
    var s: seq<char> := "922337203";
    DigitsValueSnoc(s, '6'); s := s + ['6'];
    assert DigitsValue(s) == 9223372036;
    DigitsValueSnoc(s, '8'); s := s + ['8'];
    assert DigitsValue(s) == 92233720368;
    DigitsValueSnoc(s, '5'); s := s + ['5'];
    assert DigitsValue(s) == 922337203685;
    DigitsValueSnoc(s, '4'); s := s + ['4'];
    assert DigitsValue(s) == 9223372036854;
    DigitsValueSnoc(s, '7'); s := s + ['7'];
    assert DigitsValue(s) == 92233720368547;
    DigitsValueSnoc(s, '7'); s := s + ['7'];
    assert DigitsValue(s) == 922337203685477;
    DigitsValueSnoc(s, '5'); s := s + ['5'];
    assert DigitsValue(s) == 9223372036854775;
    DigitsValueSnoc(s, '8'); s := s + ['8'];
    assert DigitsValue(s) == 92233720368547758;
    DigitsValueSnoc(s, '0'); s := s + ['0'];
    assert DigitsValue(s) == 922337203685477580;
    assert s == "922337203685477580";
  }

  /** `long.MaxValue` is accepted. */
  lemma Int64MaxAccepted()
    ensures TryParseInt64("9223372036854775807") == Parsed(true, Int64Max)
  {
    Int64MaxPrefixValue();
    DigitsValueSnoc("922337203685477580", '7');
    assert "922337203685477580" + ['7'] == "9223372036854775807";
  }

  /** `long.MaxValue + 1` is refused and yields 0. */
  lemma Int64OverflowRefused()
    ensures TryParseInt64("9223372036854775808") == Parsed(false, 0)
  {
    Int64MaxPrefixValue();
    DigitsValueSnoc("922337203685477580", '8');
    assert "922337203685477580" + ['8'] == "9223372036854775808";
  }

  /** The value of the first nine digits of `int.MaxValue`. */
  lemma Int32MaxPrefixValueHead()
    ensures DigitsValue("21474") == 21474
  {
    var s: seq<char> := [];
    DigitsValueSnoc(s, '2'); s := s + ['2'];
    assert DigitsValue(s) == 2;
    DigitsValueSnoc(s, '1'); s := s + ['1'];
    assert DigitsValue(s) == 21;
    DigitsValueSnoc(s, '4'); s := s + ['4'];
    assert DigitsValue(s) == 214;
    DigitsValueSnoc(s, '7'); s := s + ['7'];
    assert DigitsValue(s) == 2147;
    DigitsValueSnoc(s, '4'); s := s + ['4'];
    assert DigitsValue(s) == 21474;
    assert s == "21474";
  }

  lemma Int32MaxPrefixValue()
    ensures DigitsValue("214748364") == 214748364
  {
    Int32MaxPrefixValueHead();
    var s: seq<char> := "21474";
    DigitsValueSnoc(s, '8'); s := s + ['8'];
    assert DigitsValue(s) == 214748;
    DigitsValueSnoc(s, '3'); s := s + ['3'];
    assert DigitsValue(s) == 2147483;
    DigitsValueSnoc(s, '6'); s := s + ['6'];
    assert DigitsValue(s) == 21474836;
    DigitsValueSnoc(s, '4'); s := s + ['4'];
    assert DigitsValue(s) == 214748364;
    assert s == "214748364";
  }

  /** `int.MaxValue` is accepted. */
  lemma Int32MaxAccepted()
    ensures TryParseInt32("2147483647") == Parsed(true, Int32Max)
  {
    Int32MaxPrefixValue();
    DigitsValueSnoc("214748364", '7');
    assert "214748364" + ['7'] == "2147483647";
  }

  /** `int.MaxValue + 1` is refused and yields 0. */
  lemma Int32OverflowRefused()
    ensures TryParseInt32("2147483648") == Parsed(false, 0)
  {
    Int32MaxPrefixValue();
    DigitsValueSnoc("214748364", '8');
    assert "214748364" + ['8'] == "2147483648";
  }

  /**
   * The digit test of the windowed parsers, `(ushort)(c - 0x30) <= 9`: the subtraction wraps
   * to an unsigned 16-bit value, so characters below '0' become large and fail the test.
   */
  function UShortDigit(c: char): int {
    (c as int - 0x30) % 0x1_0000
  }

  /** On every UTF-16 code unit the unsigned test accepts exactly the ASCII digits. */
  lemma UShortDigitIsAsciiDigit(c: char)
    requires c as int < 0x1_0000
    ensures UShortDigit(c) <= 9 <==> IsDigit(c)
    ensures IsDigit(c) ==> UShortDigit(c) == DigitValue(c)
  {
  }

  /** Extending a view of digits by one more digit. */
  lemma ViewSnoc(buffer: seq<char>, offset: nat, ch: nat)
    requires offset <= ch < |buffer|
    requires AllDigits(buffer[offset..ch]) && IsDigit(buffer[ch])
    ensures AllDigits(buffer[offset..ch + 1])
    ensures DigitsValue(buffer[offset..ch + 1])
            == DigitsValue(buffer[offset..ch]) * 10 + DigitValue(buffer[ch])
  {
    assert buffer[offset..ch + 1] == buffer[offset..ch] + [buffer[ch]];
    DigitsValueSnoc(buffer[offset..ch], buffer[ch]);
  }

  /** One step of the windowed loop keeps the running result equal to the wrapped value of the digits read. */
  lemma AccumulateStep(w: Width, buffer: seq<char>, offset: nat, ch: nat, result: int)
    requires offset <= ch < |buffer|
    requires AllDigits(buffer[offset..ch]) && IsDigit(buffer[ch])
    requires result == Wrap(w, DigitsValue(buffer[offset..ch]))
    ensures AllDigits(buffer[offset..ch + 1])
    ensures Wrap(w, Wrap(w, result * 10) + DigitValue(buffer[ch]))
            == Wrap(w, DigitsValue(buffer[offset..ch + 1]))
  {
    ViewSnoc(buffer, offset, ch);
    WrapAccumulate(w, DigitsValue(buffer[offset..ch]), DigitValue(buffer[ch]));
  }

  /**
   * The loop shared by the two windowed parsers: an empty buffer or view fails with 0; a view
   * of digits succeeds with its value in unchecked `w`-bit arithmetic; a view that holds
   * any other character still succeeds, with 0.
   */
  method TryParseSegment(w: Width, buffer: seq<char>, offset: nat, length: nat)
    returns (success: bool, result: int)
    requires offset + length <= |buffer|
    ensures success <==> length > 0
    ensures success && AllDigits(buffer[offset..offset + length])
      ==> result == Wrap(w, DigitsValue(buffer[offset..offset + length]))
    ensures !(success && AllDigits(buffer[offset..offset + length])) ==> result == 0
  {
    if |buffer| == 0 {
      return false, 0;
    }
    result := 0;
    var ch := offset;
    var end := offset + length;
    if ch == end {
      return false, 0;
    }
    while ch < end && IsDigit(buffer[ch])
      invariant offset <= ch <= end
      invariant AllDigits(buffer[offset..ch])
      invariant result == Wrap(w, DigitsValue(buffer[offset..ch]))
      decreases end - ch
    {
      AccumulateStep(w, buffer, offset, ch, result);
      result := Wrap(w, Wrap(w, result * 10) + DigitValue(buffer[ch]));
      ch := ch + 1;
    }
    if ch != end {
      assert !IsDigit(buffer[offset..end][ch - offset]);
      assert !AllDigits(buffer[offset..offset + length]);
      return true, 0;
    }
    return true, result;
  }

  /**
   * `TryParseInt32(StringSegment)`: the unchecked 32-bit windowed parse. On a view whose digits
   * fit in `int` and that holds no NUL it agrees with the whole-string parse.
   */
  method TryParseInt32Segment(buffer: seq<char>, offset: nat, length: nat)
    returns (success: bool, result: int)
    requires offset + length <= |buffer|
    ensures success <==> length > 0
    ensures success && AllDigits(buffer[offset..offset + length])
      ==> result == Wrap32(DigitsValue(buffer[offset..offset + length]))
    ensures success && !AllDigits(buffer[offset..offset + length]) ==> result == 0
    ensures !success ==> result == 0
    ensures TryParseInt32(buffer[offset..offset + length]).success ==> success
    ensures TryParseInt32(buffer[offset..offset + length]).success && AllDigits(buffer[offset..offset + length])
      ==> result == TryParseInt32(buffer[offset..offset + length]).value
  {
    success, result := TryParseSegment(W32, buffer, offset, length);
  }

  /**
   * `TryParseInt64(StringSegment)`: the unchecked 64-bit windowed parse. On a view whose digits
   * fit in `long` and that holds no NUL it agrees with the whole-string parse.
   */
  method TryParseInt64Segment(buffer: seq<char>, offset: nat, length: nat)
    returns (success: bool, result: int)
    requires offset + length <= |buffer|
    ensures success <==> length > 0
    ensures success && AllDigits(buffer[offset..offset + length])
      ==> result == Wrap64(DigitsValue(buffer[offset..offset + length]))
    ensures success && !AllDigits(buffer[offset..offset + length]) ==> result == 0
    ensures !success ==> result == 0
    ensures TryParseInt64(buffer[offset..offset + length]).success ==> success
    ensures TryParseInt64(buffer[offset..offset + length]).success && AllDigits(buffer[offset..offset + length])
      ==> result == TryParseInt64(buffer[offset..offset + length]).value
  {
    success, result := TryParseSegment(W64, buffer, offset, length);
  }
}
