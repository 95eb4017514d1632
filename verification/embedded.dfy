/**
 * The embedded-value scanner: `TryParseTimeSpan` finds `target` in a list of raw header
 * values and reads the `=<seconds>` that follows it; `Contains` is the bare existence check.
 */
module EmbeddedValue {
  import opened Outcomes
  import opened Decimal
  import opened FixedWidth
  import opened Text
  import IntegerParsers

  /** `Contains(headerValues, targetValue)`: some header value holds the target, ignoring case. */
  predicate Contains(headerValues: seq<seq<char>>, target: seq<char>)
    decreases |headerValues|
  {
    if |headerValues| == 0 then false
    else IndexOf(headerValues[0], target) != -1 || Contains(headerValues[1..], target)
  }

  /** `Contains` holds exactly when some header value holds the target. */
  lemma {:induction false} ContainsMeaning(headerValues: seq<seq<char>>, target: seq<char>)
    ensures Contains(headerValues, target)
            <==> exists k :: 0 <= k < |headerValues| && IndexOf(headerValues[k], target) != -1
    decreases |headerValues|
  {
    if |headerValues| > 0 {
      ContainsMeaning(headerValues[1..], target);
      if IndexOf(headerValues[0], target) == -1 {
        forall k | 1 <= k < |headerValues|
          ensures headerValues[k] == headerValues[1..][k - 1]
        {
        }
      }
    }
  }

  /** The position of the first header value that holds the target, or `|headerValues|`. */
  function FirstContaining(headerValues: seq<seq<char>>, target: seq<char>): (k: nat)
    ensures k <= |headerValues|
    ensures forall j :: 0 <= j < k ==> IndexOf(headerValues[j], target) == -1
    ensures k < |headerValues| ==> IndexOf(headerValues[k], target) != -1
    decreases |headerValues|
  {
    if |headerValues| == 0 then 0
    else if IndexOf(headerValues[0], target) != -1 then 0
    else 1 + FirstContaining(headerValues[1..], target)
  }

  /** A character the scanner skips between the target and its number. */
  predicate IsSpaceOrEquals(c: char) {
    c == ' ' || c == '='
  }

  /** The end of the run of spaces and '=' characters starting at `i`. */
  function SkipSpacesAndEquals(s: seq<char>, i: nat): (e: nat)
    requires i <= |s|
    ensures i <= e <= |s|
    decreases |s| - i
  {
    if i == |s| || !IsSpaceOrEquals(s[i]) then i else SkipSpacesAndEquals(s, i + 1)
  }

  /** The end of the run of ASCII digits starting at `i`. */
  function DigitRunEnd(s: seq<char>, i: nat): (e: nat)
    requires i <= |s|
    ensures i <= e <= |s|
    decreases |s| - i
  {
    if i == |s| || !IsDigit(s[i]) then i else DigitRunEnd(s, i + 1)
  }

  /** Some character of `s[i..e]` is '='. */
  predicate EqualsBetween(s: seq<char>, i: nat, e: nat)
    requires i <= e <= |s|
    decreases e - i
  {
    i < e && (s[e - 1] == '=' || EqualsBetween(s, i, e - 1))
  }

  /** The run of spaces and '=' the scanner skips is maximal. */
  lemma {:induction false} SkipSpacesAndEqualsStops(s: seq<char>, i: nat)
    requires i <= |s|
    ensures forall k :: i <= k < SkipSpacesAndEquals(s, i) ==> IsSpaceOrEquals(s[k])
    ensures SkipSpacesAndEquals(s, i) < |s| ==> !IsSpaceOrEquals(s[SkipSpacesAndEquals(s, i)])
    decreases |s| - i
  {
    if i < |s| && IsSpaceOrEquals(s[i]) {
      SkipSpacesAndEqualsStops(s, i + 1);
    }
  }

  /** The digit run the scanner finds is maximal. */
  lemma {:induction false} DigitRunEndStops(s: seq<char>, i: nat)
    requires i <= |s|
    ensures AllDigits(s[i..DigitRunEnd(s, i)])
    ensures DigitRunEnd(s, i) < |s| ==> !IsDigit(s[DigitRunEnd(s, i)])
    decreases |s| - i
  {
    if i < |s| && IsDigit(s[i]) {
      DigitRunEndStops(s, i + 1);
      assert s[i..DigitRunEnd(s, i)] == [s[i]] + s[i + 1..DigitRunEnd(s, i + 1)];
    }
  }

  /** `EqualsBetween` holds exactly when an '=' lies in the range. */
  lemma {:induction false} EqualsBetweenIff(s: seq<char>, i: nat, e: nat)
    requires i <= e <= |s|
    ensures EqualsBetween(s, i, e) <==> exists k :: i <= k < e && s[k] == '='
    decreases e - i
  {
    if i < e {
      EqualsBetweenIff(s, i, e - 1);
    }
  }

  /** An '=' at `k` puts one in any range around it. */
  lemma {:induction false} EqualsBetweenAt(s: seq<char>, i: nat, k: nat, e: nat)
    requires i <= k < e <= |s| && s[k] == '='
    ensures EqualsBetween(s, i, e)
    decreases e - i
  {
    if k < e - 1 {
      EqualsBetweenAt(s, i, k, e - 1);
    }
  }

  /** Any run of spaces and '=' from `i` to a stopping point `e` is the one the scanner finds. */
  lemma {:induction false} SkipSpacesAndEqualsAt(s: seq<char>, i: nat, e: nat)
    requires i <= e <= |s|
    requires forall k :: i <= k < e ==> IsSpaceOrEquals(s[k])
    requires e < |s| ==> !IsSpaceOrEquals(s[e])
    ensures SkipSpacesAndEquals(s, i) == e
    decreases e - i
  {
    if i < e {
      SkipSpacesAndEqualsAt(s, i + 1, e);
    }
  }

  /** Any digit run from `i` to a stopping point `e` is the one the scanner finds. */
  lemma {:induction false} DigitRunEndAt(s: seq<char>, i: nat, e: nat)
    requires i <= e <= |s|
    requires AllDigits(s[i..e])
    requires e < |s| ==> !IsDigit(s[e])
    ensures DigitRunEnd(s, i) == e
    decreases e - i
  {
    if i < e {
      assert s[i] == s[i..e][0];
      assert s[i + 1..e] == s[i..e][1..];
      DigitRunEndAt(s, i + 1, e);
    }
  }

  /** The digit run that follows the spaces and '=' characters after a match at `start`. */
  function DigitsAfter(headerValue: seq<char>, start: nat): (digits: seq<char>)
    requires start <= |headerValue|
    ensures AllDigits(digits)
  {
    var from := SkipSpacesAndEquals(headerValue, start);
    DigitRunEndStops(headerValue, from);
    headerValue[from..DigitRunEnd(headerValue, from)]
  }

  /**
   * The digits read after a match at `start`: present when the run of spaces and '=' that
   * follows holds at least one '=' and a non-empty digit run comes next.
   */
  function DirectiveDigits(headerValue: seq<char>, start: nat): (r: Option<seq<char>>)
    requires start <= |headerValue|
    ensures r.Some? ==> AllDigits(r.value) && |r.value| > 0
  {
    var digits := DigitsAfter(headerValue, start);
    if EqualsBetween(headerValue, start, SkipSpacesAndEquals(headerValue, start)) && |digits| > 0
    then Some(digits)
    else None
  }

  /** The digits read after the first occurrence of the target in one header value. */
  function ValueDigits(headerValue: seq<char>, target: seq<char>): (r: Option<seq<char>>)
    ensures r.Some? ==> IndexOf(headerValue, target) != -1
    ensures r.Some? ==> AllDigits(r.value) && |r.value| > 0
  {
    var index := IndexOf(headerValue, target);
    if index == -1 then None else DirectiveDigits(headerValue, index + |target|)
  }

  /**
   * The digits that decide `TryParseTimeSpan`: header values that do not hold the target are
   * passed over, and the first one that holds it decides, whether or not digits follow.
   */
  function TimeSpanDigits(headerValues: seq<seq<char>>, target: seq<char>): (r: Option<seq<char>>)
    ensures r.Some? ==> AllDigits(r.value) && |r.value| > 0
    decreases |headerValues|
  {
    if |headerValues| == 0 then None
    else if IndexOf(headerValues[0], target) == -1 then TimeSpanDigits(headerValues[1..], target)
    else ValueDigits(headerValues[0], target)
  }

  /** The seconds a digit run stands for, as the unchecked 64-bit windowed parser reads it. */
  function Seconds(digits: seq<char>): int
    requires AllDigits(digits)
  {
    Wrap64(DigitsValue(digits))
  }

  /**
   * The meaning of `TryParseTimeSpan`: the first header value that holds the target decides;
   * later values are never consulted, even when the first one has no number after it.
   */
  function TimeSpanSeconds(headerValues: seq<seq<char>>, target: seq<char>): Option<int>
  {
    match TimeSpanDigits(headerValues, target)
    case None => None
    case Some(digits) => Some(Seconds(digits))
  }

  /**
   * The largest whole number of seconds a `TimeSpan` holds: `long.MaxValue` ticks of 100 ns
   * is 922337203685.4775807 seconds.
   */
  const MaxTimeSpanSeconds: int := 922_337_203_685

  /** A whole number of seconds that `TimeSpan.FromSeconds` turns into a duration. */
  predicate InTimeSpanRange(seconds: int) {
    -MaxTimeSpanSeconds <= seconds <= MaxTimeSpanSeconds
  }

  /**
   * `TimeSpan.FromSeconds(seconds)` on a whole number of seconds: the framework raises an
   * overflow when `seconds * 1000` milliseconds exceed `long.MaxValue / 10000` in magnitude,
   * which for whole seconds is a magnitude beyond `MaxTimeSpanSeconds`. The duration is kept
   * as its number of seconds.
   */
  function FromSeconds(seconds: int): (r: Result<int>)
    ensures r.Success? <==> seconds * 1000 <= Int64Max / 10000 && -(seconds * 1000) <= Int64Max / 10000
    ensures r.Success? <==> InTimeSpanRange(seconds)
    ensures r.Success? ==> r.value == seconds
    ensures r.Failure? ==> r.error == OverflowError
  {
    if InTimeSpanRange(seconds) then Success(seconds) else Failure(OverflowError)
  }

  /**
   * What `TryParseTimeSpan` yields: no value when nothing is read, the duration of the seconds
   * read, or the overflow that `FromSeconds` raises for them.
   */
  function TimeSpanOutcome(headerValues: seq<seq<char>>, target: seq<char>): (r: Result<Option<int>>)
    ensures r.Success? ==> r.value == TimeSpanSeconds(headerValues, target)
    ensures r.Failure? <==> TimeSpanSeconds(headerValues, target).Some?
                            && !InTimeSpanRange(TimeSpanSeconds(headerValues, target).value)
    ensures r.Failure? ==> r.error == OverflowError
  {
    match TimeSpanSeconds(headerValues, target)
    case None => Success(None)
    case Some(seconds) =>
      match FromSeconds(seconds)
      case Success(duration) => Success(Some(duration))
      case Failure(error) => Failure(error)
  }

  /** The seconds read after a match at `start`, as `TryParseInt64FromHeaderValue` reports them. */
  function DirectiveSeconds(headerValue: seq<char>, start: nat): Option<int>
    requires start <= |headerValue|
  {
    match DirectiveDigits(headerValue, start)
    case None => None
    case Some(digits) => Some(Seconds(digits))
  }

  /** `DirectiveDigits` in terms of the two scans it is made of. */
  lemma DirectiveDigitsRead(headerValue: seq<char>, start: nat, index: nat, endIndex: nat)
    requires start <= index <= endIndex <= |headerValue|
    requires SkipSpacesAndEquals(headerValue, start) == index
    requires DigitRunEnd(headerValue, index) == endIndex
    ensures DirectiveDigits(headerValue, start)
            == if EqualsBetween(headerValue, start, index) && index < endIndex
               then Some(headerValue[index..endIndex]) else None
  {
  }

  /**
   * `TryParseInt64FromHeaderValue(startIndex, headerValue, out value)`: skip spaces and '='
   * (at least one '=' is needed), then parse the digit run that follows.
   */
  method TryParseInt64FromHeaderValue(startIndex: nat, headerValue: seq<char>)
    returns (success: bool, value: int)
    requires startIndex <= |headerValue|
    ensures DirectiveSeconds(headerValue, startIndex) == if success then Some(value) else None
    ensures !success ==> value == 0
  {
    var found := false;
    var index := startIndex;
    while index != |headerValue|
      invariant startIndex <= index <= |headerValue|
      invariant forall k :: startIndex <= k < index ==> IsSpaceOrEquals(headerValue[k])
      invariant found == EqualsBetween(headerValue, startIndex, index)
      decreases |headerValue| - index
    {
      var c := headerValue[index];
      if c == '=' {
        found := true;
      } else if c != ' ' {
        break;
      }
      index := index + 1;
    }
    SkipSpacesAndEqualsAt(headerValue, startIndex, index);
    if !found {
      DirectiveDigitsRead(headerValue, startIndex, index, DigitRunEnd(headerValue, index));
    } else {
      var endIndex := index;
      while endIndex < |headerValue|
        invariant index <= endIndex <= |headerValue|
        invariant AllDigits(headerValue[index..endIndex])
        decreases |headerValue| - endIndex
      {
        var c := headerValue[endIndex];
        if '0' <= c <= '9' {
          assert headerValue[index..endIndex + 1] == headerValue[index..endIndex] + [c];
          endIndex := endIndex + 1;
        } else {
          break;
        }
      }
      DigitRunEndAt(headerValue, index, endIndex);
      DirectiveDigitsRead(headerValue, startIndex, index, endIndex);
      var length := endIndex - index;
      if length > 0 {
        var ok, seconds := IntegerParsers.TryParseInt64Segment(headerValue, index, length);
        if ok {
          return true, seconds;
        }
      }
    }
    return false, 0;
  }

  /** The header values from `n` on decide as the whole list does when those before `n` lack the target. */
  lemma PassOver(headerValues: seq<seq<char>>, target: seq<char>, n: nat)
    requires n < |headerValues| && IndexOf(headerValues[n], target) == -1
    ensures TimeSpanDigits(headerValues[n + 1..], target) == TimeSpanDigits(headerValues[n..], target)
    ensures Contains(headerValues[n + 1..], target) == Contains(headerValues[n..], target)
  {
    assert headerValues[n..][1..] == headerValues[n + 1..];
  }

  /** A header value at `n` that holds the target decides the digits of the list from `n` on. */
  lemma HolderDecides(headerValues: seq<seq<char>>, target: seq<char>, n: nat)
    requires n < |headerValues| && IndexOf(headerValues[n], target) != -1
    ensures Contains(headerValues[n..], target)
    ensures TimeSpanDigits(headerValues[n..], target) == ValueDigits(headerValues[n], target)
  {
    assert headerValues[n..][0] == headerValues[n];
  }

  /** In a header value that holds the target, the digits after its first occurrence are read. */
  lemma ValueDigitsAfter(headerValue: seq<char>, target: seq<char>, index: nat)
    requires IndexOf(headerValue, target) != -1
    requires index == IndexOf(headerValue, target) + |target|
    ensures index <= |headerValue|
    ensures ValueDigits(headerValue, target) == DirectiveDigits(headerValue, index)
  {
  }

  /** The seconds reported follow the digits read. */
  lemma SecondsOfDigits(headerValues: seq<seq<char>>, target: seq<char>, headerValue: seq<char>, index: nat)
    requires index <= |headerValue|
    requires TimeSpanDigits(headerValues, target) == DirectiveDigits(headerValue, index)
    ensures TimeSpanSeconds(headerValues, target) == DirectiveSeconds(headerValue, index)
  {
  }

  /**
   * `TryParseTimeSpan(headerValues, targetValue, out value)`: the seconds of the first header
   * value that holds the target; the loop stops at that value whether or not it parses.
   * `Success(Some(d))` is a `true` return with the duration `d`, `Success(None)` a `false`
   * return, and a failure the exception `TimeSpan.FromSeconds` raises.
   */
  method TryParseTimeSpan(headerValues: seq<seq<char>>, target: seq<char>)
    returns (outcome: Result<Option<int>>)
    ensures outcome.Success? ==> outcome.value == TimeSpanSeconds(headerValues, target)
    ensures outcome.Failure? <==> TimeSpanSeconds(headerValues, target).Some?
                                  && !InTimeSpanRange(TimeSpanSeconds(headerValues, target).value)
    ensures outcome.Failure? ==> outcome.error == OverflowError
    ensures outcome.Success? && outcome.value.Some? ==> Contains(headerValues, target)
  {
    var n := 0;
    while n < |headerValues|
      invariant n <= |headerValues|
      invariant TimeSpanDigits(headerValues[n..], target) == TimeSpanDigits(headerValues, target)
      invariant Contains(headerValues[n..], target) == Contains(headerValues, target)
      decreases |headerValues| - n
    {
      var index := IndexOf(headerValues[n], target);
      if index != -1 {
        index := index + |target|;
        HolderDecides(headerValues, target, n);
        ValueDigitsAfter(headerValues[n], target, index);
        SecondsOfDigits(headerValues, target, headerValues[n], index);
        var ok, seconds := TryParseInt64FromHeaderValue(index, headerValues[n]);
        if !ok {
          return Success(None);
        }
        var duration := FromSeconds(seconds);
        if duration.Failure? {
          return Failure(duration.error);
        }
        return Success(Some(duration.value));
      }
      PassOver(headerValues, target, n);
      n := n + 1;
    }
    assert headerValues[n..] == [];
    return Success(None);
  }
}

module EmbeddedValueProperties {
  import opened Outcomes
  import opened Decimal
  import opened Text
  import opened EmbeddedValue

  /** A value is only ever found in a header list that contains the target. */
  lemma {:induction false} FoundImpliesContains(headerValues: seq<seq<char>>, target: seq<char>)
    ensures TimeSpanDigits(headerValues, target).Some? ==> Contains(headerValues, target)
    ensures !Contains(headerValues, target) ==> TimeSpanSeconds(headerValues, target) == None
    decreases |headerValues|
  {
    if |headerValues| > 0 && IndexOf(headerValues[0], target) == -1 {
      FoundImpliesContains(headerValues[1..], target);
    }
  }

  /**
   * The digits read are those after the first header value that holds the target, and none
   * when no header value holds it.
   */
  lemma {:induction false} FirstHolderDecides(headerValues: seq<seq<char>>, target: seq<char>)
    ensures var k := FirstContaining(headerValues, target);
            TimeSpanDigits(headerValues, target)
            == if k == |headerValues| then None else ValueDigits(headerValues[k], target)
    decreases |headerValues|
  {
    if |headerValues| > 0 && IndexOf(headerValues[0], target) == -1 {
      FirstHolderDecides(headerValues[1..], target);
      var k := FirstContaining(headerValues[1..], target);
      if k < |headerValues[1..]| {
        assert headerValues[1..][k] == headerValues[k + 1];
      }
    }
  }

  /** With a single header value, that value alone decides. */
  lemma TimeSpanDigitsSingle(headerValue: seq<char>, target: seq<char>)
    ensures TimeSpanDigits([headerValue], target) == ValueDigits(headerValue, target)
  {
    assert [headerValue][1..] == [];
  }

  /**
   * A run of spaces and '=' from `start` to `from` with an '=' at `eq`, then a non-empty digit
   * run up to `end`, yields exactly those digits.
   */
  lemma DirectiveDigitsAt(headerValue: seq<char>, start: nat, eq: nat, from: nat, end: nat)
    requires start <= eq < from < end <= |headerValue| && headerValue[eq] == '='
    requires forall k :: start <= k < from ==> IsSpaceOrEquals(headerValue[k])
    requires AllDigits(headerValue[from..end])
    requires end < |headerValue| ==> !IsDigit(headerValue[end])
    ensures DirectiveDigits(headerValue, start) == Some(headerValue[from..end])
  {
    assert headerValue[from] == headerValue[from..end][0];
    SkipSpacesAndEqualsAt(headerValue, start, from);
    DigitRunEndAt(headerValue, from, end);
    EqualsBetweenAt(headerValue, start, eq, from);
  }

  /** A single '=' followed by digits to the end of the value yields exactly those digits. */
  lemma DirectiveDigitsToEnd(headerValue: seq<char>, start: nat, digits: seq<char>)
    requires start < |headerValue| && headerValue[start] == '='
    requires headerValue[start + 1..] == digits && |digits| > 0 && AllDigits(digits)
    ensures DirectiveDigits(headerValue, start) == Some(digits)
  {
    assert headerValue[start + 1..|headerValue|] == digits;
    DirectiveDigitsAt(headerValue, start, start, start + 1, |headerValue|);
  }

  /** A lone directive `h=<digits>` reads the whole digit run, whatever its length. */
  lemma LoneDirective(digits: seq<char>)
    requires |digits| > 0 && AllDigits(digits)
    ensures TimeSpanDigits(["h=" + digits], "h") == Some(digits)
  {
    var h := "h=" + digits;
    assert MatchesAt(h, "h", 0);
    assert IndexOf(h, "h") == 0;
    assert h[2..] == digits;
    DirectiveDigitsToEnd(h, 1, digits);
    TimeSpanDigitsSingle(h, "h");
  }

  /**
   * The meaning of `DirectiveDigits`: after `start` the scanner skips the longest run of
   * spaces and '='; digits are read only when that run holds an '=' and a digit follows it,
   * and then the whole digit run is read.
   */
  lemma DirectiveDigitsMeaning(headerValue: seq<char>, start: nat)
    requires start <= |headerValue|
    ensures var from := SkipSpacesAndEquals(headerValue, start);
            && (forall k :: start <= k < from ==> IsSpaceOrEquals(headerValue[k]))
            && (from < |headerValue| ==> !IsSpaceOrEquals(headerValue[from]))
            && (DirectiveDigits(headerValue, start).Some?
                <==> (exists k :: start <= k < from && headerValue[k] == '=')
                     && from < |headerValue| && IsDigit(headerValue[from]))
    ensures var from := SkipSpacesAndEquals(headerValue, start);
            var end := DigitRunEnd(headerValue, from);
            && (end < |headerValue| ==> !IsDigit(headerValue[end]))
            && (DirectiveDigits(headerValue, start).Some? ==> DirectiveDigits(headerValue, start).value == headerValue[from..end])
  {
    var from := SkipSpacesAndEquals(headerValue, start);
    SkipSpacesAndEqualsStops(headerValue, start);
    DigitRunEndStops(headerValue, from);
    EqualsBetweenIff(headerValue, start, from);
  }

  /**
   * The first header value holding the target is terminal: once one holds it, header values
   * appended after the list never change the digits read, found or not.
   */
  lemma {:induction false} FirstMatchDecidesDigits(headerValues: seq<seq<char>>, later: seq<seq<char>>, target: seq<char>)
    requires Contains(headerValues, target)
    ensures TimeSpanDigits(headerValues + later, target) == TimeSpanDigits(headerValues, target)
    decreases |headerValues|
  {
    var all := headerValues + later;
    assert all[0] == headerValues[0];
    if IndexOf(headerValues[0], target) == -1 {
      assert Contains(headerValues[1..], target);
      assert all[1..] == headerValues[1..] + later;
      FirstMatchDecidesDigits(headerValues[1..], later, target);
      assert TimeSpanDigits(all, target) == TimeSpanDigits(all[1..], target);
    } else {
      assert TimeSpanDigits(all, target) == ValueDigits(headerValues[0], target);
    }
  }

  /** The same for the seconds `TryParseTimeSpan` reports. */
  lemma FirstMatchDecides(headerValues: seq<seq<char>>, later: seq<seq<char>>, target: seq<char>)
    requires Contains(headerValues, target)
    ensures TimeSpanSeconds(headerValues + later, target) == TimeSpanSeconds(headerValues, target)
  {
    FirstMatchDecidesDigits(headerValues, later, target);
  }
}
