/**
 * The grammar scanners the header utilities consult (`HttpRuleParser.GetTokenLength`,
 * `GetQuotedStringLength` and `GetWhitespaceLength`). The utilities receive them as
 * parameters; the functions below are reference instances that follow the `token`,
 * `quoted-string` and `OWS` rules of RFC 7230 section 3.2.
 */
module RuleParser {

  /** The status `HttpRuleParser` reports for a quoted string. */
  datatype HttpParseResult = Parsed | NotParsed | InvalidFormat

  /** A scanner reporting how many characters of a production start at the given index. */
  type LengthScanner = (seq<char>, nat) -> nat

  /** A quoted-string scanner: its status and the length it matched. */
  type QuotedScanner = (seq<char>, nat) -> (HttpParseResult, nat)

  /** A scanner that never reports a match running past the end of its input. */
  ghost predicate Bounded(scan: LengthScanner) {
    forall s: seq<char>, i: nat :: i <= |s| ==> i + scan(s, i) <= |s|
  }

  /** `tchar` of RFC 7230 section 3.2.6. */
  predicate IsTokenChar(c: char) {
    || 'a' <= c <= 'z' || 'A' <= c <= 'Z' || '0' <= c <= '9'
    || c == '!' || c == '#' || c == '$' || c == '%' || c == '&' || c == '\'' || c == '*'
    || c == '+' || c == '-' || c == '.' || c == '^' || c == '_' || c == '`' || c == '|' || c == '~'
  }

  /** The end of the run of `tchar` starting at `i`. */
  function TokenEnd(s: seq<char>, i: nat): (e: nat)
    requires i <= |s|
    ensures i <= e <= |s|
    ensures forall k :: i <= k < e ==> IsTokenChar(s[k])
    ensures e < |s| ==> !IsTokenChar(s[e])
    decreases |s| - i
  {
    if i == |s| || !IsTokenChar(s[i]) then i else TokenEnd(s, i + 1)
  }

  /** The length of the run of `tchar` starting at `i`; 0 past the end of the input. */
  function TokenLength(s: seq<char>, i: nat): (n: nat)
    ensures n == 0 || i + n <= |s|
    ensures forall k :: i <= k < i + n ==> IsTokenChar(s[k])
    ensures i + n < |s| ==> !IsTokenChar(s[i + n])
  {
    if i > |s| then 0 else TokenEnd(s, i) - i
  }

  /** A run of `tchar` reaching the end of the input is scanned to the end. */
  lemma {:induction false} TokenEndToEnd(s: seq<char>, i: nat)
    requires i <= |s|
    requires forall k :: i <= k < |s| ==> IsTokenChar(s[k])
    ensures TokenEnd(s, i) == |s|
    decreases |s| - i
  {
    if i < |s| {
      TokenEndToEnd(s, i + 1);
    }
  }

  /** `SP` or `HTAB`, the characters of `OWS` in RFC 7230 section 3.2.3. */
  predicate IsSpaceTab(c: char) {
    c == ' ' || c == '\t'
  }

  /** The end of the run of spaces and horizontal tabs starting at `i`. */
  function SpaceTabEnd(s: seq<char>, i: nat): (e: nat)
    requires i <= |s|
    ensures i <= e <= |s|
    ensures forall k :: i <= k < e ==> IsSpaceTab(s[k])
    ensures e < |s| ==> !IsSpaceTab(s[e])
    decreases |s| - i
  {
    if i == |s| || !IsSpaceTab(s[i]) then i else SpaceTabEnd(s, i + 1)
  }

  /** The length of the run of spaces and horizontal tabs starting at `i`; 0 past the end of the input. */
  function SpaceTabLength(s: seq<char>, i: nat): (n: nat)
    ensures n == 0 || i + n <= |s|
    ensures forall k :: i <= k < i + n ==> IsSpaceTab(s[k])
    ensures i + n < |s| ==> !IsSpaceTab(s[i + n])
  {
    if i > |s| then 0 else SpaceTabEnd(s, i) - i
  }

  lemma SpaceTabLengthBounded()
    ensures Bounded(SpaceTabLength)
  {
  }

  /** `qdtext` of RFC 7230 section 3.2.6: HTAB, SP, %x21, %x23-5B, %x5D-7E and `obs-text` (%x80-FF). */
  predicate IsQdText(c: char) {
    c == '\t' || c == ' ' || c == '!' || ('#' <= c <= '[') || (']' <= c <= '~')
    || ('\U{80}' <= c <= '\U{FF}')
  }

  /** The character a `quoted-pair` escapes: HTAB, SP, VCHAR (%x21-7E) or `obs-text`. */
  predicate IsQuotedPairChar(c: char) {
    c == '\t' || c == ' ' || ('!' <= c <= '~') || ('\U{80}' <= c <= '\U{FF}')
  }

  /**
   * The index just past the closing quote of a quoted string whose body starts at `j`, or -1
   * when the body holds a character outside `qdtext` and `quoted-pair` or has no closing quote.
   */
  function QuotedBodyEnd(s: seq<char>, j: nat): (e: int)
    ensures e == -1 || (j < e <= |s| && s[e - 1] == '"')
    decreases |s| - j
  {
    if j >= |s| then -1
    else if s[j] == '"' then j + 1
    else if s[j] == '\\' then
      (if j + 1 < |s| && IsQuotedPairChar(s[j + 1]) then QuotedBodyEnd(s, j + 2) else -1)
    else if IsQdText(s[j]) then QuotedBodyEnd(s, j + 1)
    else -1
  }

  /** The body of a quoted string, between its quotes: `*( qdtext / quoted-pair )`. */
  predicate IsQuotedBody(b: seq<char>)
    decreases |b|
  {
    |b| == 0
    || (b[0] == '\\' && |b| >= 2 && IsQuotedPairChar(b[1]) && IsQuotedBody(b[2..]))
    || (IsQdText(b[0]) && IsQuotedBody(b[1..]))
  }

  /**
   * The body scan from `j` ends exactly at the end of `s` when `s` ends in a quote and what
   * lies between `j` and that quote is a quoted-string body.
   */
  lemma {:induction false} QuotedBodyEndToEnd(s: seq<char>, j: nat)
    requires j <= |s|
    ensures QuotedBodyEnd(s, j) == |s|
        <==> j < |s| && s[|s| - 1] == '"' && IsQuotedBody(s[j..|s| - 1])
    decreases |s| - j
  {
    if j == |s| {
    } else if s[j] == '"' {
      if j < |s| - 1 {
        assert s[j..|s| - 1][0] == '"';
      }
    } else if s[j] == '\\' {
      if j + 1 < |s| && IsQuotedPairChar(s[j + 1]) {
        QuotedBodyEndToEnd(s, j + 2);
        if j + 2 < |s| {
          assert s[j..|s| - 1][2..] == s[j + 2..|s| - 1];
        }
      } else if j + 1 < |s| - 1 {
        assert s[j..|s| - 1][1] == s[j + 1];
      }
    } else if IsQdText(s[j]) {
      QuotedBodyEndToEnd(s, j + 1);
      if j + 1 < |s| {
        assert s[j..|s| - 1][1..] == s[j + 1..|s| - 1];
      }
    } else if j < |s| - 1 {
      assert s[j..|s| - 1][0] == s[j];
    }
  }

  /** `quoted-string` of RFC 7230 section 3.2.6, starting at `i`. */
  function QuotedStringLength(s: seq<char>, i: nat): (r: (HttpParseResult, nat))
    ensures r.0 == Parsed ==> 2 <= r.1 && i + r.1 <= |s| && s[i] == '"' && s[i + r.1 - 1] == '"'
    ensures r.0 != Parsed ==> r.1 == 0
  {
    if i >= |s| || s[i] != '"' then (NotParsed, 0)
    else
      var e := QuotedBodyEnd(s, i + 1);
      if e == -1 then (InvalidFormat, 0) else (Parsed, e - i)
  }
}
