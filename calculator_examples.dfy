/** Cases from StringCalculator.Tests/StringCalculatorTests.cs, and the header edge cases,
    derived from the general lemmas about the model. */
module CalculatorExamples {
  import opened Wrappers
  import opened Int32Text
  import opened Strings
  import opened StringCalculator

  /** Splitting stops at the first separator: what precedes it is the first piece. */
  lemma {:induction false} SplitAtFirstSeparator(a: string, c: char, b: string, delims: seq<char>)
    requires forall m :: 0 <= m < |a| ==> a[m] !in delims
    requires c in delims
    ensures Split(a + [c] + b, delims) == [a] + Split(b, delims)
  {
    if a == [] {
      assert ([c] + b)[1..] == b;
    } else {
      SplitAtFirstSeparator(a[1..], c, b, delims);
      assert (a + [c] + b)[1..] == a[1..] + [c] + b;
      assert [a[0]] + a[1..] == a;
    }
  }

  /** Two pieces around one separator. */
  lemma SplitTwo(a: string, c: char, b: string, delims: seq<char>)
    requires forall m :: 0 <= m < |a| ==> a[m] !in delims
    requires forall m :: 0 <= m < |b| ==> b[m] !in delims
    requires c in delims
    ensures Split(a + [c] + b, delims) == [a, b]
  {
    SplitAtFirstSeparator(a, c, b, delims);
    SplitWithoutSeparators(b, delims);
  }

  /** A text with exactly one comma, at k, splits into the text before it and the text after it. */
  lemma SplitAtOnlyComma(s: string, k: nat)
    requires k < |s| && s[k] == ','
    requires forall m :: 0 <= m < |s| && m != k ==> s[m] != ','
    ensures Split(s, [',']) == [s[..k], s[k + 1..]]
  {
    assert s == s[..k] + [','] + s[k + 1..];
    SplitTwo(s[..k], ',', s[k + 1..], [',']);
  }

  /** Without a header, a text with one comma is added up as the two tokens around it. */
  lemma CommaPairTokens(s: string, k: nat)
    requires 0 < k < |s| && s[k] == ',' && s[0] != '/'
    requires forall m :: 0 <= m < |s| && m != k ==> s[m] != ','
    ensures AddSpec(Some(s)) == Reference([s[..k], s[k + 1..]])
  {
    AddWithoutHeader(s);
    SplitAtOnlyComma(s, k);
  }

  /** A one-digit numeral with optional trailing white space. */
  lemma ParseDigit(s: string, d: int)
    requires 0 <= d < 10 && |s| >= 1 && s[0] == DigitChar(d)
    requires forall m :: 1 <= m < |s| ==> IsWhite(s[m])
    ensures TryParse(s) == Some(d)
  {
    assert IntegerLayout(s, 0, 0, 1);
    TryParseComplete(s, 0, 0, 1);
    assert s[0..1] == [DigitChar(d)];
    assert [DigitChar(d)][..0] == [];
    assert DigitsValue([DigitChar(d)]) == d;
    assert SignedValue(s, 0, 0, 1) == d;
  }

  /** Two tokens that parse to 1 and 2 add up to 3. */
  lemma ReferenceOneTwo(tokens: seq<string>)
    requires |tokens| == 2 && TryParse(tokens[0]) == Some(1) && TryParse(tokens[1]) == Some(2)
    ensures Reference(tokens) == Ok(3)
  {
    var parsed := ParseAll(tokens);
    assert parsed.Some? by {
      forall i | 0 <= i < |tokens| ensures TryParse(tokens[i]).Some? {
      }
    }
    var vals := parsed.value;
    assert vals == [1, 2];
    assert vals[..1] == [1];
    assert Negatives(vals) == [];
    assert SmallSum(vals) == 3;
    Wrap32Keeps(3);
  }

  /** The sum of two numbers separated by a comma. */
  lemma OnePlusTwo()
    ensures AddSpec(Some("1,2")) == Ok(3)
  {
    var tokens := ["1", "2"];
    assert "1,2"[..1] == tokens[0] && "1,2"[2..] == tokens[1];
    CommaPairTokens("1,2", 1);
    ParseDigit(tokens[0], 1);
    ParseDigit(tokens[1], 2);
    ReferenceOneTwo(tokens);
  }

  /** A newline before the comma is white space around the number, not an error. */
  lemma NewlinePadding()
    ensures AddSpec(Some("1\n,2")) == Ok(3)
  {
    var s := "1\n,2";
    var tokens := ["1\n", "2"];
    assert s[..2] == tokens[0] && s[3..] == tokens[1];
    CommaPairTokens(s, 2);
    ParseDigit(tokens[0], 1);
    ParseDigit(tokens[1], 2);
    ReferenceOneTwo(tokens);
  }

  /** The header "//;" leaves "1;2" to be split on ';' alone. */
  lemma SemicolonHeaderParts()
    ensures AddSpec(Some("//;\n1;2")) == Reference(Split("1;2", ";"))
  {
    var s := "//;\n1;2";
    assert s[2..3] == ";" && s[4..] == "1;2";
    assert '/' !in s[2..3];
    AddWithHeader(s, 3);
  }

  lemma SplitOneSemicolonTwo()
    ensures Split("1;2", ";") == ["1", "2"]
  {
    assert "1;2" == "1" + [';'] + "2";
    SplitTwo("1", ';', "2", ";");
  }

  /** A custom single-character delimiter replaces the comma. */
  lemma SemicolonHeader()
    ensures AddSpec(Some("//;\n1;2")) == Ok(3)
  {
    var tokens := ["1", "2"];
    SemicolonHeaderParts();
    SplitOneSemicolonTwo();
    ParseDigit(tokens[0], 1);
    ParseDigit(tokens[1], 2);
    ReferenceOneTwo(tokens);
  }

  /** '/' may not be a delimiter. */
  lemma SlashInHeader()
    ensures AddSpec(Some("////////;\n1;2")) == ArgumentOutOfRange(InvalidHeader)
  {
    var s := "////////;\n1;2";
    AddWithHeader(s, 9);
    assert s[2..9][0] == '/';
  }

  /** "//" followed directly by '\n' gives no delimiters, and `Last()` throws. */
  lemma EmptyHeader()
    ensures AddSpec(Some("//\n1")) == InvalidOperation
  {
    AddWithHeader("//\n1", 2);
  }

  /** One token that parses to a negative value: it alone is reported. */
  lemma ReferenceOneNegative(tokens: seq<string>, v: int)
    requires |tokens| == 1 && TryParse(tokens[0]) == Some(v) && v < 0
    ensures Reference(tokens) == ArgumentOutOfRange(NegativesNotAllowed + IntToString(v))
  {
    var vals := ParseAll(tokens).value;
    assert vals == [v];
    NegativesSnoc([], v);
    assert [] + [v] == [v];
    assert Negatives(vals) == [v];
    assert JoinInts([v]) == IntToString(v);
  }

  lemma MinusOneParses()
    ensures TryParse("-1") == Some(-1)
  {
    assert IntToString(-1) == "-1";
    ParseToStringRoundTrip(-1);
  }

  lemma SingleNegativeTokens()
    ensures AddSpec(Some("-1")) == Reference(["-1"])
  {
    AddWithoutHeader("-1");
    SplitWithoutSeparators("-1", [',']);
  }

  /** A single negative is reported by itself. */
  lemma SingleNegative()
    ensures AddSpec(Some("-1")) == ArgumentOutOfRange("Negatives not allowed: -1")
  {
    SingleNegativeTokens();
    MinusOneParses();
    ReferenceOneNegative(["-1"], -1);
    assert IntToString(-1) == "-1";
    assert NegativesNotAllowed + "-1" == "Negatives not allowed: -1";
  }

  /** A trailing delimiter leaves a white-space-only token, which does not parse. */
  lemma DanglingDelimiter()
    ensures AddSpec(Some("1,\n")) == ArgumentNull(Some(InvalidCharacters))
  {
    var tokens := ["1", "\n"];
    assert "1,\n"[..1] == tokens[0] && "1,\n"[2..] == tokens[1];
    CommaPairTokens("1,\n", 1);
    TryParseNeedsDigit(tokens[1]);
    assert ParseAll(tokens).None?;
  }
}
