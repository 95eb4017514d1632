/**
 * The quality parameter `q` of a header value (`SetQuality`, `GetQuality`), as list surgery on
 * the value's name/value parameters. Quality values are reals; how the source renders one as
 * text (`"0.0##"`) and reads one back (`double.TryParse`) are parameters of the model.
 */
module Quality {
  import opened Outcomes
  import opened Text

  /** A `NameValueHeaderValue`: one `name=value` parameter. */
  datatype NameValue = NameValue(name: seq<char>, value: seq<char>)

  /** The name of the quality parameter. */
  const QualityName: seq<char> := "q"

  /** Renders a quality value as parameter text. */
  type Formatter = real -> seq<char>

  /** Reads a quality value from parameter text, or fails. */
  type QualityParser = seq<char> -> Option<real>

  /** A parameter named "q", ignoring case. */
  predicate IsQuality(p: NameValue) {
    EqualsIgnoreCase(p.name, QualityName)
  }

  /** `NameValueHeaderValue.Find(parameters, "q")`: the position of the first quality parameter, or `|parameters|`. */
  function FindQuality(parameters: seq<NameValue>): (k: nat)
    ensures k <= |parameters|
    ensures k < |parameters| ==> IsQuality(parameters[k])
    ensures forall j :: 0 <= j < k ==> !IsQuality(parameters[j])
    decreases |parameters|
  {
    if |parameters| == 0 then 0
    else if IsQuality(parameters[0]) then 0
    else 1 + FindQuality(parameters[1..])
  }

  /** A quality value `SetQuality` accepts. */
  predicate InRange(quality: real) {
    0.0 <= quality <= 1.0
  }

  /**
   * `SetQuality(parameters, value)`: a value outside [0, 1] raises a range error; a value
   * rewrites the first quality parameter in place or appends one; no value removes the first
   * quality parameter, if any.
   */
  function SetQuality(parameters: seq<NameValue>, value: Option<real>, format: Formatter): (r: Result<seq<NameValue>>)
    ensures r.Failure? <==> value.Some? && !InRange(value.value)
    ensures r.Failure? ==> r.error == RangeError
  {
    var k := FindQuality(parameters);
    match value
    case Some(quality) =>
      if quality < 0.0 || quality > 1.0 then Failure(RangeError)
      else if k < |parameters| then Success(parameters[k := parameters[k].(value := format(quality))])
      else Success(parameters + [NameValue(QualityName, format(quality))])
    case None =>
      if k < |parameters| then Success(parameters[..k] + parameters[k + 1..]) else Success(parameters)
  }

  /** Any first quality parameter is the one `FindQuality` finds. */
  lemma FirstQualityFound(parameters: seq<NameValue>, k: nat)
    requires k < |parameters| && IsQuality(parameters[k])
    requires forall j :: 0 <= j < k ==> !IsQuality(parameters[j])
    ensures FindQuality(parameters) == k
  {
  }

  /**
   * `GetQuality(parameters)`: the value of the first quality parameter, when it reads as a
   * number; nothing when there is no quality parameter or its value does not read.
   */
  function GetQuality(parameters: seq<NameValue>, parse: QualityParser): (r: Option<real>)
    ensures (forall j :: 0 <= j < |parameters| ==> !IsQuality(parameters[j])) ==> r == None
    ensures forall k :: 0 <= k < |parameters| && IsQuality(parameters[k])
                        && (forall j :: 0 <= j < k ==> !IsQuality(parameters[j]))
                        ==> r == parse(parameters[k].value)
  {
    forall k | 0 <= k < |parameters| && IsQuality(parameters[k])
               && (forall j :: 0 <= j < k ==> !IsQuality(parameters[j]))
    {
      FirstQualityFound(parameters, k);
    }
    var k := FindQuality(parameters);
    if k < |parameters| then parse(parameters[k].value) else None
  }

  /** The parameters other than quality parameters, in order. */
  function Others(parameters: seq<NameValue>): (r: seq<NameValue>)
    ensures |r| <= |parameters|
    decreases |parameters|
  {
    if |parameters| == 0 then []
    else (if IsQuality(parameters[0]) then [] else [parameters[0]]) + Others(parameters[1..])
  }

  /** The number of quality parameters. */
  function CountQuality(parameters: seq<NameValue>): nat
    decreases |parameters|
  {
    if |parameters| == 0 then 0
    else (if IsQuality(parameters[0]) then 1 else 0) + CountQuality(parameters[1..])
  }
}

/** What `SetQuality` does to the list, and how `GetQuality` reads it back. */
module QualityProperties {
  import opened Outcomes
  import opened Quality

  /** With a quality parameter present, a value rewrites it in place and touches nothing else. */
  lemma SetRewritesInPlace(parameters: seq<NameValue>, quality: real, format: Formatter)
    requires InRange(quality) && FindQuality(parameters) < |parameters|
    ensures var r := SetQuality(parameters, Some(quality), format);
            var k := FindQuality(parameters);
            && r.Success? && |r.value| == |parameters|
            && r.value[k] == NameValue(parameters[k].name, format(quality))
            && forall j :: 0 <= j < |parameters| && j != k ==> r.value[j] == parameters[j]
  {
  }

  /** Without a quality parameter, a value appends exactly one, named "q", at the end. */
  lemma SetAppends(parameters: seq<NameValue>, quality: real, format: Formatter)
    requires InRange(quality) && FindQuality(parameters) == |parameters|
    ensures var r := SetQuality(parameters, Some(quality), format);
            && r.Success? && |r.value| == |parameters| + 1
            && r.value[..|parameters|] == parameters
            && r.value[|parameters|] == NameValue(QualityName, format(quality))
  {
    assert (parameters + [NameValue(QualityName, format(quality))])[..|parameters|] == parameters;
  }

  /** No value removes the first quality parameter and shifts the later ones down. */
  lemma UnsetRemoves(parameters: seq<NameValue>, format: Formatter)
    ensures var r := SetQuality(parameters, None, format);
            var k := FindQuality(parameters);
            && r.Success?
            && (k == |parameters| ==> r.value == parameters)
            && (k < |parameters| ==>
                  && |r.value| == |parameters| - 1
                  && (forall j :: 0 <= j < k ==> r.value[j] == parameters[j])
                  && (forall j :: k <= j < |r.value| ==> r.value[j] == parameters[j + 1]))
  {
  }

  /** `Others` over a concatenation. */
  lemma {:induction false} OthersAppend(a: seq<NameValue>, b: seq<NameValue>)
    ensures Others(a + b) == Others(a) + Others(b)
    decreases |a|
  {
    if |a| > 0 {
      assert (a + b)[0] == a[0];
      assert (a + b)[1..] == a[1..] + b;
      OthersAppend(a[1..], b);
      var head := if IsQuality(a[0]) then [] else [a[0]];
      assert Others(a + b) == head + Others(a[1..] + b);
      assert Others(a) == head + Others(a[1..]);
      assert head + (Others(a[1..]) + Others(b)) == (head + Others(a[1..])) + Others(b);
    } else {
      assert a + b == b;
    }
  }

  /** `CountQuality` over a concatenation. */
  lemma {:induction false} CountAppend(a: seq<NameValue>, b: seq<NameValue>)
    ensures CountQuality(a + b) == CountQuality(a) + CountQuality(b)
    decreases |a|
  {
    if |a| > 0 {
      assert (a + b)[0] == a[0];
      assert (a + b)[1..] == a[1..] + b;
      CountAppend(a[1..], b);
      assert CountQuality(a + b) == (if IsQuality(a[0]) then 1 else 0) + CountQuality(a[1..] + b);
      assert CountQuality(a) == (if IsQuality(a[0]) then 1 else 0) + CountQuality(a[1..]);
    } else {
      assert a + b == b;
    }
  }

  /** Splitting the list at a quality parameter `k`. */
  lemma SplitAtQuality(parameters: seq<NameValue>, k: nat)
    requires k < |parameters| && IsQuality(parameters[k])
    ensures Others(parameters) == Others(parameters[..k]) + Others(parameters[k + 1..])
    ensures CountQuality(parameters) == CountQuality(parameters[..k]) + 1 + CountQuality(parameters[k + 1..])
  {
    var tail := parameters[k..];
    assert parameters == parameters[..k] + tail;
    assert tail[0] == parameters[k];
    assert tail[1..] == parameters[k + 1..];
    assert Others(tail) == Others(parameters[k + 1..]);
    assert CountQuality(tail) == 1 + CountQuality(parameters[k + 1..]);
    OthersAppend(parameters[..k], tail);
    CountAppend(parameters[..k], tail);
  }

  /** The parameters before the first quality parameter hold none. */
  lemma {:induction false} NoQualityBefore(parameters: seq<NameValue>, k: nat)
    requires k <= |parameters|
    requires forall j :: 0 <= j < k ==> !IsQuality(parameters[j])
    ensures CountQuality(parameters[..k]) == 0
    decreases k
  {
    if k > 0 {
      assert parameters[..k][0] == parameters[0];
      assert parameters[..k][1..] == parameters[1..][..k - 1];
      NoQualityBefore(parameters[1..], k - 1);
    }
  }

  /**
   * Whatever `SetQuality` does, the other parameters keep their order and values: a rewrite and
   * an append only touch quality parameters, and a removal only takes one out.
   */
  lemma OthersPreserved(parameters: seq<NameValue>, value: Option<real>, format: Formatter)
    requires SetQuality(parameters, value, format).Success?
    ensures Others(SetQuality(parameters, value, format).value) == Others(parameters)
  {
    var r := SetQuality(parameters, value, format).value;
    var k := FindQuality(parameters);
    if k < |parameters| {
      SplitAtQuality(parameters, k);
      if value.Some? {
        assert IsQuality(r[k]);
        assert r[..k] == parameters[..k] && r[k + 1..] == parameters[k + 1..];
        SplitAtQuality(r, k);
      } else {
        OthersAppend(parameters[..k], parameters[k + 1..]);
      }
    } else if value.Some? {
      OthersAppend(parameters, [NameValue(QualityName, format(value.value))]);
      assert IsQuality(NameValue(QualityName, format(value.value)));
      assert [NameValue(QualityName, format(value.value))][1..] == [];
    }
  }

  /** Once a value is set, the first quality parameter holds its rendering, where it already was or at the end. */
  lemma FindAfterSet(parameters: seq<NameValue>, quality: real, format: Formatter)
    requires InRange(quality)
    ensures var r := SetQuality(parameters, Some(quality), format).value;
            && FindQuality(r) == FindQuality(parameters)
            && FindQuality(r) < |r| && r[FindQuality(r)].value == format(quality)
  {
    var r := SetQuality(parameters, Some(quality), format).value;
    var k := FindQuality(parameters);
    if k < |parameters| {
      FirstQualityFound(r, k);
    } else {
      assert IsQuality(NameValue(QualityName, format(quality)));
      FirstQualityFound(r, k);
    }
  }

  /** Round trip: after a value is set, `GetQuality` reads back the parse of its rendering. */
  lemma GetAfterSet(parameters: seq<NameValue>, quality: real, format: Formatter, parse: QualityParser)
    requires InRange(quality)
    ensures GetQuality(SetQuality(parameters, Some(quality), format).value, parse) == parse(format(quality))
  {
    FindAfterSet(parameters, quality, format);
  }

  /** Setting a value twice leaves the list as setting the second value once. */
  lemma SetTwice(parameters: seq<NameValue>, first: real, second: real, format: Formatter)
    requires InRange(first) && InRange(second)
    ensures SetQuality(SetQuality(parameters, Some(first), format).value, Some(second), format)
            == SetQuality(parameters, Some(second), format)
  {
    FindAfterSet(parameters, first, format);
    var k := FindQuality(parameters);
    var once := SetQuality(parameters, Some(first), format).value;
    if k == |parameters| {
      assert once == parameters + [NameValue(QualityName, format(first))];
      assert once[k].name == QualityName;
      assert once[k := once[k].(value := format(second))] == parameters + [NameValue(QualityName, format(second))];
    } else {
      assert once[k := once[k].(value := format(second))] == parameters[k := parameters[k].(value := format(second))];
    }
  }

  /** With at most one quality parameter, removing leaves none, so a second removal changes nothing. */
  lemma UnsetIdempotent(parameters: seq<NameValue>, format: Formatter)
    requires CountQuality(parameters) <= 1
    ensures var once := SetQuality(parameters, None, format).value;
            && CountQuality(once) == 0
            && SetQuality(once, None, format) == SetQuality(parameters, None, format)
  {
    var k := FindQuality(parameters);
    var once := SetQuality(parameters, None, format).value;
    if k < |parameters| {
      SplitAtQuality(parameters, k);
      NoQualityBefore(parameters, k);
      CountAppend(parameters[..k], parameters[k + 1..]);
      NoQualityLeft(once);
    } else {
      NoQualityBefore(parameters, k);
      assert parameters[..k] == parameters;
    }
  }

  /** A list with no quality parameter has none to find. */
  lemma NoQualityLeft(parameters: seq<NameValue>)
    requires CountQuality(parameters) == 0
    ensures FindQuality(parameters) == |parameters|
  {
    var k := FindQuality(parameters);
    if k < |parameters| {
      SplitAtQuality(parameters, k);
    }
  }

  /**
   * With two quality parameters a removal takes out only the first, and `GetQuality` then
   * reads the second: removal is not idempotent on such a list.
   */
  lemma UnsetWithTwoQualities(format: Formatter, parse: QualityParser)
    ensures var parameters := [NameValue("q", "0.5"), NameValue("Q", "0.2")];
            var once := SetQuality(parameters, None, format).value;
            && once == [NameValue("Q", "0.2")]
            && GetQuality(once, parse) == parse("0.2")
            && SetQuality(once, None, format).value == []
  {
    var parameters := [NameValue("q", "0.5"), NameValue("Q", "0.2")];
    assert IsQuality(parameters[0]);
    assert IsQuality(NameValue("Q", "0.2"));
    assert FindQuality(parameters) == 0;
    assert parameters[1..] == [NameValue("Q", "0.2")];
    assert FindQuality([NameValue("Q", "0.2")]) == 0;
  }

  /** A value outside [0, 1] is refused whatever the list holds. */
  lemma OutOfRangeRefused(parameters: seq<NameValue>, format: Formatter)
    ensures SetQuality(parameters, Some(1.5), format) == Failure(RangeError)
    ensures SetQuality(parameters, Some(-0.5), format) == Failure(RangeError)
  {
  }
}
