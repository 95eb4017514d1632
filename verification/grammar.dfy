/** Whole-string validation of `token` and `quoted-string` values, and quote stripping. */
module Grammar {
  import opened Outcomes
  import opened RuleParser

  /**
   * `CheckValidToken`: an empty value raises an argument error; a value the token scanner
   * does not consume entirely raises a format error.
   */
  function CheckValidToken(value: seq<char>, tokenLength: LengthScanner): (r: Outcome)
    ensures r == Pass <==> |value| > 0 && tokenLength(value, 0) == |value|
    ensures r == Fail(ArgumentError) <==> |value| == 0
    ensures r.Fail? ==> r.error in {ArgumentError, FormatError}
  {
    if |value| == 0 then Fail(ArgumentError)
    else if tokenLength(value, 0) != |value| then Fail(FormatError)
    else Pass
  }

  /**
   * `CheckValidQuotedString`: an empty value raises an argument error; a value that the
   * scanner does not report as a parsed quoted string spanning the whole value (so trailing
   * characters, whitespace included, are refused) raises a format error.
   */
  function CheckValidQuotedString(value: seq<char>, quotedLength: QuotedScanner): (r: Outcome)
    ensures r == Pass <==> |value| > 0 && quotedLength(value, 0) == (Parsed, |value|)
    ensures r == Fail(ArgumentError) <==> |value| == 0
    ensures r.Fail? ==> r.error in {ArgumentError, FormatError}
  {
    if |value| == 0 then Fail(ArgumentError)
    else
      var (status, length) := quotedLength(value, 0);
      if status != Parsed || length != |value| then Fail(FormatError) else Pass
  }

  /** Under the RFC 7230 token rule, a value passes exactly when it is a non-empty run of `tchar`. */
  lemma TokenValidUnderRfc7230(value: seq<char>)
    ensures CheckValidToken(value, TokenLength) == Pass
        <==> |value| > 0 && forall k :: 0 <= k < |value| ==> IsTokenChar(value[k])
  {
    if |value| > 0 && forall k :: 0 <= k < |value| ==> IsTokenChar(value[k]) {
      TokenEndToEnd(value, 0);
    }
  }

  /**
   * Under the RFC 7230 quoted-string rule a value passes exactly when it is a quote, a body of
   * `qdtext` and `quoted-pair`s, and a closing quote, with nothing after it.
   */
  lemma QuotedStringValidUnderRfc7230(value: seq<char>)
    ensures CheckValidQuotedString(value, QuotedStringLength) == Pass
        <==> |value| >= 2 && value[0] == '"' && value[|value| - 1] == '"'
             && IsQuotedBody(value[1..|value| - 1])
  {
    if |value| > 0 && value[0] == '"' {
      QuotedBodyEndToEnd(value, 1);
    }
  }

  /** A quoted string followed by anything, even whitespace, is refused. */
  lemma TrailingCharactersRefused(value: seq<char>, quotedLength: QuotedScanner)
    requires quotedLength(value, 0).0 == Parsed && quotedLength(value, 0).1 < |value|
    ensures CheckValidQuotedString(value, quotedLength) == Fail(FormatError)
  {
  }

  /** The examples: "gzip" is a token, a token with an embedded space is not, "" is refused. */
  lemma TokenExamples()
    ensures CheckValidToken("gzip", TokenLength) == Pass
    ensures CheckValidToken("gz ip", TokenLength) == Fail(FormatError)
    ensures CheckValidToken("", TokenLength) == Fail(ArgumentError)
  {
    TokenValidUnderRfc7230("gzip");
    assert !IsTokenChar("gz ip"[2]);
    TokenValidUnderRfc7230("gz ip");
  }

  /**
   * A quoted string is accepted alone, escapes included, and refused with a trailing space,
   * without its end, or with a control character inside.
   */
  lemma QuotedStringExamples()
    ensures CheckValidQuotedString("\"a b\"", QuotedStringLength) == Pass
    ensures CheckValidQuotedString("\"a\\\"b\"", QuotedStringLength) == Pass
    ensures CheckValidQuotedString("\"a b\" ", QuotedStringLength) == Fail(FormatError)
    ensures CheckValidQuotedString("\"a\\\"", QuotedStringLength) == Fail(FormatError)
    ensures CheckValidQuotedString("\"\n\"", QuotedStringLength) == Fail(FormatError)
    ensures CheckValidQuotedString("\"\0\"", QuotedStringLength) == Fail(FormatError)
  {
  }

  /**
   * `RemoveQuotes`: strips one leading and one trailing double quote when the value has
   * at least two characters and both ends are quotes; otherwise returns the value unchanged.
   */
  function RemoveQuotes(input: seq<char>): (r: seq<char>)
    ensures r == input <==> !(|input| >= 2 && input[0] == '"' && input[|input| - 1] == '"')
    ensures r != input ==> input == ['"'] + r + ['"']
  {
    if |input| >= 2 && input[0] == '"' && input[|input| - 1] == '"' then input[1..|input| - 1] else input
  }

  /** Removing the quotes undoes quoting, whatever the content. */
  lemma RemoveQuotesUndoesQuoting(content: seq<char>)
    ensures RemoveQuotes(['"'] + content + ['"']) == content
  {
    var q := ['"'] + content + ['"'];
    assert q[1..|q| - 1] == content;
  }

  /** The boundary cases: a lone quote is kept, a pair of quotes becomes empty. */
  lemma RemoveQuotesExamples()
    ensures RemoveQuotes("\"") == "\""
    ensures RemoveQuotes("\"\"") == ""
    ensures RemoveQuotes("\"a") == "\"a"
  {
  }
}
