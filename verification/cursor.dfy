/**
 * The list cursor `GetNextNonEmptyOrWhitespaceIndex`: advances over whitespace and a comma
 * separator in a comma-separated header value, reporting whether a separator was found.
 */
module ListCursor {
  import opened RuleParser

  /**
   * `to` is reached from `from` by zero or more steps, each consuming one comma and the
   * whitespace `ws` finds after it.
   */
  ghost predicate SeparatorSteps(input: seq<char>, ws: LengthScanner, from: nat, to: nat)
    decreases to - from
  {
    from == to
    || (from < to && from < |input| && input[from] == ','
        && SeparatorSteps(input, ws, from + 1 + ws(input, from + 1), to))
  }

  /** A position where a run of separators ends: the end of the input or a non-comma. */
  predicate AtValue(input: seq<char>, i: nat) {
    i == |input| || (i < |input| && input[i] != ',')
  }

  /** The end of a run of separator steps is unique: it is the first value position reached. */
  lemma {:induction false} SeparatorRunEndUnique(input: seq<char>, ws: LengthScanner, from: nat, a: nat, b: nat)
    requires SeparatorSteps(input, ws, from, a) && AtValue(input, a)
    requires SeparatorSteps(input, ws, from, b) && AtValue(input, b)
    ensures a == b
    decreases a - from + b - from
  {
    if from == a || from == b {
      // The position is a value position, so no step can leave it.
    } else {
      SeparatorRunEndUnique(input, ws, from + 1 + ws(input, from + 1), a, b);
    }
  }

  /**
   * `GetNextNonEmptyOrWhitespaceIndex(input, startIndex, skipEmptyValues, out separatorFound)`.
   * It skips whitespace; when a comma follows, it consumes it and the whitespace after it
   * and, if `skipEmptyValues` is set, every further comma-and-whitespace step as well.
   */
  method GetNextNonEmptyOrWhitespaceIndex(
    input: seq<char>, startIndex: nat, skipEmptyValues: bool, ws: LengthScanner)
    returns (next: nat, separatorFound: bool)
    requires startIndex <= |input|
    requires Bounded(ws)
    ensures startIndex <= next <= |input|
    ensures var p := startIndex + ws(input, startIndex);
      separatorFound <==> p < |input| && input[p] == ','
    ensures !separatorFound ==> next == startIndex + ws(input, startIndex)
    ensures separatorFound && !skipEmptyValues
      ==> var p := startIndex + ws(input, startIndex); next == p + 1 + ws(input, p + 1)
    ensures skipEmptyValues ==> AtValue(input, next)
    ensures SeparatorSteps(input, ws, startIndex + ws(input, startIndex), next)
  {
    separatorFound := false;
    var current := startIndex + ws(input, startIndex);
    if current == |input| || input[current] != ',' {
      return current, separatorFound;
    }
    ghost var first := current;
    separatorFound := true;
    current := current + 1;
    current := current + ws(input, current);
    assert SeparatorSteps(input, ws, current, current);
    if skipEmptyValues {
      while current < |input| && input[current] == ','
        invariant first < current <= |input|
        invariant SeparatorSteps(input, ws, first, current)
        decreases |input| - current
      {
        ghost var before := current;
        current := current + 1;
        current := current + ws(input, current);
        SeparatorStepsExtend(input, ws, first, before, current);
      }
    }
    return current, separatorFound;
  }

  /** One more comma step extends a run of separator steps. */
  lemma {:induction false} SeparatorStepsExtend(input: seq<char>, ws: LengthScanner, from: nat, mid: nat, to: nat)
    requires SeparatorSteps(input, ws, from, mid)
    requires mid < |input| && input[mid] == ',' && to == mid + 1 + ws(input, mid + 1)
    ensures SeparatorSteps(input, ws, from, to)
    decreases mid - from
  {
    if from == mid {
      assert SeparatorSteps(input, ws, to, to);
    } else {
      SeparatorStepsExtend(input, ws, from + 1 + ws(input, from + 1), mid, to);
    }
  }

  /**
   * The example of a run of empty list items: in "a,,  ,b", with empty values skipped and
   * spaces and tabs as whitespace, the only value position the separators lead to from
   * index 1 is the 'b' at index 6.
   */
  lemma EmptyValuesCollapse(next: nat)
    requires SeparatorSteps("a,,  ,b", SpaceTabLength, 1, next) && AtValue("a,,  ,b", next)
    ensures next == 6
  {
    var input := "a,,  ,b";
    assert SpaceTabLength(input, 6) == 0;
    assert SpaceTabLength(input, 3) == 2;
    assert SpaceTabLength(input, 2) == 0;
    assert SeparatorSteps(input, SpaceTabLength, 6, 6);
    assert SeparatorSteps(input, SpaceTabLength, 5, 6);
    assert SeparatorSteps(input, SpaceTabLength, 2, 6);
    assert SeparatorSteps(input, SpaceTabLength, 1, 6);
    SeparatorRunEndUnique(input, SpaceTabLength, 1, next, 6);
  }
}
