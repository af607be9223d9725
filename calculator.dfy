/** `StringCalculator.Add` and its helpers `SafeSubstring` and `TryGetDelimHeader`
    (StringCalculator/StringCalculator.cs). An input is an optional string (a C# `string`
    that may be null); a call ends in a sum or in one of the exceptions `Add` throws. */
module StringCalculator {
  import opened Wrappers
  import opened Int32Text
  import opened Strings

  /** How a call of Add ends. */
  datatype Outcome =
    | Ok(sum: int)
      /** ArgumentNullException; `None` when only the parameter name is given (default message). */
    | ArgumentNull(message: Option<string>)
      /** ArgumentOutOfRangeException with its message. */
    | ArgumentOutOfRange(reason: string)
      /** InvalidOperationException from `Enumerable.Last` on an empty delimiter array. */
    | InvalidOperation

  const InvalidCharacters: string := "Invalid characters specified."
  const InvalidHeader: string := "Invalid delimiter header specified: '/'"
  const NegativesNotAllowed: string := "Negatives not allowed: "

  // ---------------------------------------------------------------------------------------
  // SafeSubstring

  /** `orig.Substring(start, min(length, |orig|))`; `None` is the ArgumentOutOfRangeException
      that Substring throws for a negative start or length, or a range past the end. */
  function SafeSubstring(orig: string, start: int, length: int): (r: Option<string>)
    ensures r.Some? ==>
      0 <= start && start + |r.value| <= |orig| && |r.value| <= length &&
      r.value == orig[start..start + |r.value|]
    ensures start == 0 && 0 <= length ==>
      r.Some? && |r.value| == (if length <= |orig| then length else |orig|)
  {
    var n := if |orig| >= length then length else |orig|;
    if 0 <= start && 0 <= n && start + n <= |orig| then Some(orig[start..start + n]) else None
  }

  predicate StartsWithSlashes(s: string) {
    |s| >= 2 && s[0] == '/' && s[1] == '/'
  }

  /** Add's header test `numbers.SafeSubstring(0, 2) == "//"` never throws and holds exactly
      when the input begins with two slashes. */
  lemma HeaderTest(s: string)
    ensures SafeSubstring(s, 0, 2) == Some("//") <==> StartsWithSlashes(s)
  {
    if StartsWithSlashes(s) {
      assert s[0..2] == "//";
    }
  }

  // ---------------------------------------------------------------------------------------
  // TryGetDelimHeader: Regex.Match(numbers, @"(?<=//).*(?=\n)")

  /** A successful regular-expression match: where it starts and the text it matched. */
  datatype Match = Match(index: nat, value: string)

  /** The pattern matches s[p..p + len]: "//" stands right before p (the look-behind), none of
      the matched characters is '\n' (`.` never matches it), and '\n' follows (the look-ahead). */
  predicate MatchesAt(s: string, p: nat, len: nat) {
    2 <= p && p + len < |s| && s[p - 2] == '/' && s[p - 1] == '/' && s[p + len] == '\n' &&
    forall m :: p <= m < p + len ==> s[m] != '\n'
  }

  /** The leftmost match starting at `p` or later. At a start position the greedy `.*` runs to
      the next '\n', which the look-ahead then accepts; with no '\n' ahead the position fails. */
  function MatchFrom(s: string, p: nat): (r: Option<Match>)
    ensures r.Some? ==>
      p <= r.value.index && r.value.index + |r.value.value| <= |s| &&
      MatchesAt(s, r.value.index, |r.value.value|) &&
      r.value.value == s[r.value.index..r.value.index + |r.value.value|]
    ensures forall q: nat, len: nat | p <= q && (r.None? || q < r.value.index) :: !MatchesAt(s, q, len)
    decreases |s| - p
  {
    if p >= |s| then None
    else if 2 <= p && s[p - 2] == '/' && s[p - 1] == '/' && IndexOf(s[p..], '\n') >= 0 then
      var e := IndexOf(s[p..], '\n');
      assert s[p + e] == s[p..][e];
      Some(Match(p, s[p..p + e]))
    else
      assert forall len: nat :: !MatchesAt(s, p, len) by {
        if 2 <= p && IndexOf(s[p..], '\n') < 0 {
          forall m | p <= m < |s| ensures s[m] != '\n' {
            assert s[p..][m - p] == s[m];
          }
        }
      }
      MatchFrom(s, p + 1)
  }

  /** `TryGetDelimHeader`: the matched text as a character array, or null without a match. */
  function TryGetDelimHeader(numbers: string): Option<seq<char>> {
    match MatchFrom(numbers, 0)
    case None => None
    case Some(m) => Some(m.value)
  }

  /** The header is text the pattern matches, and there is none exactly when the pattern
      matches nowhere. */
  lemma HeaderIsMatch(numbers: string)
    ensures TryGetDelimHeader(numbers).Some? ==>
      exists p: nat :: MatchesAt(numbers, p, |TryGetDelimHeader(numbers).value|) &&
        TryGetDelimHeader(numbers).value == numbers[p..p + |TryGetDelimHeader(numbers).value|]
    ensures TryGetDelimHeader(numbers).None? <==> forall p: nat, len: nat :: !MatchesAt(numbers, p, len)
  {
    var m := MatchFrom(numbers, 0);
    if m.Some? {
      assert MatchesAt(numbers, m.value.index, |m.value.value|);
    }
  }

  /** For an input that begins with "//" the regular expression is a plain scan: the header is
      everything from index 2 up to the first '\n', and there is none without a '\n'. */
  lemma HeaderIsFirstLine(s: string)
    requires StartsWithSlashes(s)
    ensures IndexOf(s, '\n') == -1 || 2 <= IndexOf(s, '\n')
    ensures TryGetDelimHeader(s) ==
      if IndexOf(s, '\n') == -1 then None else Some(s[2..IndexOf(s, '\n')])
  {
    var n := IndexOf(s, '\n');
    if n == -1 {
      assert forall p: nat, len: nat :: !MatchesAt(s, p, len);
    } else {
      assert MatchesAt(s, 2, n - 2);
      var m := MatchFrom(s, 0);
      assert m.Some?;
      var q, len := m.value.index, |m.value.value|;
      assert q == 2 by {
        assert !MatchesAt(s, 0, len) && !MatchesAt(s, 1, len);
        assert q <= 2;
      }
      assert len == n - 2 by {
        assert s[q + len] == '\n';
        assert forall k :: 2 <= k < n ==> s[k] != '\n';
      }
    }
  }

  // ---------------------------------------------------------------------------------------
  // The numbers loop

  /** The state of Add's `foreach` loop: the running `total` and the `negativeAudit` text. */
  datatype Tally = Tally(total: int, audit: string)

  /** One accepted number: 1000 or more is skipped, a negative is appended to the audit text
      followed by ',', anything else is added to the total with unchecked 32-bit arithmetic. */
  function Step(t: Tally, num: int): Tally {
    if num >= 1000 then t
    else if num < 0 then Tally(t.total, t.audit + IntToString(num) + ",")
    else Tally(Wrap32(t.total + num), t.audit)
  }

  /** The loop run over `tokens`; `None` when a token does not parse (the loop throws). */
  function Scan(tokens: seq<string>): Option<Tally>
    decreases |tokens|
  {
    if tokens == [] then Some(Tally(0, ""))
    else
      match Scan(tokens[..|tokens| - 1])
      case None => None
      case Some(t) =>
        match TryParse(tokens[|tokens| - 1])
        case None => None
        case Some(num) => Some(Step(t, num))
  }

  /** What follows the loop: the parse failure, the negatives check, or the total. */
  function Conclude(scan: Option<Tally>): Outcome {
    match scan
    case None => ArgumentNull(Some(InvalidCharacters))
    case Some(t) =>
      if t.audit != "" then ArgumentOutOfRange(NegativesNotAllowed + TrimEnd(t.audit, ','))
      else Ok(t.total)
  }

  /** Add's header cut: drop everything up to the first occurrence of the last header delimiter,
      then everything up to and including the next '\n'. */
  function CutHeader(s: string, delims: seq<char>): string
    requires delims != []
  {
    var afterDelim := s[IndexOf(s, delims[|delims| - 1]) + 1..];
    afterDelim[IndexOf(afterDelim, '\n') + 1..]
  }

  /** The delimiters a header declares: only looked for after a "//" prefix. */
  function HeaderOf(s: string): Option<seq<char>> {
    if SafeSubstring(s, 0, 2) == Some("//") then TryGetDelimHeader(s) else None
  }

  /** What Add does with a header's delimiters: reject '/', fail on none, else cut the header. */
  function WithHeader(s: string, delims: seq<char>): Outcome {
    if '/' in delims then ArgumentOutOfRange(InvalidHeader)
    else if delims == [] then InvalidOperation
    else SumOf(Split(CutHeader(s, delims), delims))
  }

  /** The numbers loop and the check after it, over the tokens of the body. */
  function SumOf(tokens: seq<string>): Outcome {
    Conclude(Scan(tokens))
  }

  /** What Add does with an input, step by step as the C# method does it. */
  function AddSpec(numbers: Option<string>): Outcome {
    if numbers == Some("") then Ok(0)
    else if numbers.None? then ArgumentNull(None)
    else
      match HeaderOf(numbers.value)
      case None => SumOf(Split(numbers.value, [',']))
      case Some(delims) => WithHeader(numbers.value, delims)
  }

  /** `Add(numbers)`. */
  method Add(numbers: Option<string>) returns (r: Outcome)
    ensures r == AddSpec(numbers)
  {
    var delims := [','];
    if numbers == Some("") {
      return Ok(0);
    }
    if numbers.None? {
      return ArgumentNull(None);
    }
    var s := numbers.value;
    ghost var original := s;
    if SafeSubstring(s, 0, 2) == Some("//") {
      var fromHeader := TryGetDelimHeader(s);
      if fromHeader.Some? {
        assert AddSpec(numbers) == WithHeader(original, fromHeader.value);
        if '/' in fromHeader.value {
          return ArgumentOutOfRange(InvalidHeader);
        }
        if fromHeader.value == [] {
          return InvalidOperation;
        }
        var indexOfLastDelim := IndexOf(s, fromHeader.value[|fromHeader.value| - 1]);
        s := s[indexOfLastDelim + 1..];
        s := s[IndexOf(s, '\n') + 1..];
        delims := fromHeader.value;
        assert s == CutHeader(original, delims);
      }
    }
    assert AddSpec(numbers) == SumOf(Split(s, delims));
    r := SumNumbers(Split(s, delims));
  }

  /** The "Process numbers" loop of Add over the split body: parse, skip, audit and sum the
      tokens one by one; a token that does not parse throws at once, negatives throw at the end. */
  method SumNumbers(tokens: seq<string>) returns (r: Outcome)
    ensures r == SumOf(tokens)
  {
    var total := 0;
    var negativeAudit := "";
    for i := 0 to |tokens|
      invariant Scan(tokens[..i]) == Some(Tally(total, negativeAudit))
    {
      var parsed := TryParse(tokens[i]);
      if parsed.None? {
        ScanStopsAtFailure(tokens, i);
        return ArgumentNull(Some(InvalidCharacters));
      }
      ScanNext(tokens, i, Tally(total, negativeAudit), parsed.value);
      total, negativeAudit := VisitNumber(total, negativeAudit, parsed.value);
    }
    assert tokens[..|tokens|] == tokens;
    if negativeAudit != "" {
      return ArgumentOutOfRange(NegativesNotAllowed + TrimEnd(negativeAudit, ','));
    }
    return Ok(total);
  }

  /** One turn of that loop for a number that parsed: numbers of 1000 or more are skipped,
      a negative is written to the audit text, any other number is added to the total. */
  method VisitNumber(total: int, negativeAudit: string, num: int) returns (total': int, negativeAudit': string)
    ensures Tally(total', negativeAudit') == Step(Tally(total, negativeAudit), num)
  {
    total', negativeAudit' := total, negativeAudit;
    var hasNegative := false;
    if num >= 1000 {
      return;
    }
    if num < 0 {
      hasNegative := true;
      negativeAudit' := negativeAudit' + IntToString(num) + ",";
    }
    if !hasNegative {
      total' := Wrap32(total' + num);
    }
  }

  lemma ScanNext(tokens: seq<string>, i: nat, t: Tally, num: int)
    requires i < |tokens| && Scan(tokens[..i]) == Some(t) && TryParse(tokens[i]) == Some(num)
    ensures Scan(tokens[..i + 1]) == Some(Step(t, num))
  {
    assert tokens[..i + 1][..i] == tokens[..i];
  }

  /** A token that does not parse ends the loop with a failure, whatever comes after it. */
  lemma {:induction false} ScanStopsAtFailure(tokens: seq<string>, i: nat)
    requires i < |tokens| && TryParse(tokens[i]).None?
    ensures Scan(tokens) == None
    decreases |tokens|
  {
    if i < |tokens| - 1 {
      var init := tokens[..|tokens| - 1];
      assert init[i] == tokens[i];
      ScanStopsAtFailure(init, i);
    }
  }

  // ---------------------------------------------------------------------------------------
  // What Add computes, stated without the loop

  /** Every token's value, when every token parses. */
  function ParseAll(tokens: seq<string>): (r: Option<seq<int>>)
    ensures r.None? <==> exists i :: 0 <= i < |tokens| && TryParse(tokens[i]).None?
    ensures r.Some? ==>
      |r.value| == |tokens| && forall i :: 0 <= i < |tokens| ==> TryParse(tokens[i]) == Some(r.value[i])
    decreases |tokens|
  {
    if tokens == [] then Some([])
    else
      var init := tokens[..|tokens| - 1];
      assert forall i :: 0 <= i < |init| ==> init[i] == tokens[i];
      match ParseAll(init)
      case None => None
      case Some(vals) =>
        match TryParse(tokens[|tokens| - 1])
        case None => None
        case Some(v) => Some(vals + [v])
  }

  /** The sum of the values from 0 to 999: those that are neither negative nor too large. */
  function SmallSum(vals: seq<int>): (r: int)
    ensures 0 <= r <= 999 * |vals|
    decreases |vals|
  {
    if vals == [] then 0
    else
      var v := vals[|vals| - 1];
      SmallSum(vals[..|vals| - 1]) + (if 0 <= v < 1000 then v else 0)
  }

  /** The negative values, in order, repetitions kept. */
  function Negatives(vals: seq<int>): (r: seq<int>)
    ensures forall k :: 0 <= k < |r| ==> r[k] < 0
    ensures r == [] <==> forall i :: 0 <= i < |vals| ==> vals[i] >= 0
    decreases |vals|
  {
    if vals == [] then []
    else
      var init := vals[..|vals| - 1];
      var v := vals[|vals| - 1];
      assert forall i :: 0 <= i < |init| ==> init[i] == vals[i];
      Negatives(init) + (if v < 0 then [v] else [])
  }

  /** Decimal texts of the values, separated by commas. */
  function JoinInts(vs: seq<int>): (r: string)
    ensures vs != [] ==> |r| > 0 && IsDigit(r[|r| - 1])
    decreases |vs|
  {
    if vs == [] then ""
    else if |vs| == 1 then IntToString(vs[0])
    else JoinInts(vs[..|vs| - 1]) + "," + IntToString(vs[|vs| - 1])
  }

  /** The audit text the loop builds: each negative's text followed by ','. */
  function AuditOf(negs: seq<int>): string
    decreases |negs|
  {
    if negs == [] then "" else AuditOf(negs[..|negs| - 1]) + IntToString(negs[|negs| - 1]) + ","
  }

  /** What Add returns, given the tokens of the body: a token that does not parse wins, even
      over negatives seen before it; then all negatives are reported; otherwise the 32-bit sum of
      the values from 0 to 999. */
  function Reference(tokens: seq<string>): Outcome {
    match ParseAll(tokens)
    case None => ArgumentNull(Some(InvalidCharacters))
    case Some(vals) =>
      if Negatives(vals) != [] then ArgumentOutOfRange(NegativesNotAllowed + JoinInts(Negatives(vals)))
      else Ok(Wrap32(SmallSum(vals)))
  }

  /** The loop's state after `vals`, as the reference definitions describe it. */
  function Summary(vals: seq<int>): Tally {
    Tally(Wrap32(SmallSum(vals)), AuditOf(Negatives(vals)))
  }

  /** One more number moves the summary on exactly as one more turn of the loop does. */
  lemma StepSummary(vals: seq<int>, v: int)
    ensures Step(Summary(vals), v) == Summary(vals + [v])
  {
    if v >= 1000 {
      StepSkipsLarge(vals, v);
    } else if v < 0 {
      StepAuditsNegative(vals, v);
    } else {
      StepAddsSmall(vals, v);
      Wrap32Add(SmallSum(vals), v);
    }
  }

  lemma StepSkipsLarge(vals: seq<int>, v: int)
    requires v >= 1000
    ensures Summary(vals + [v]) == Summary(vals)
  {
    SmallSumSnoc(vals, v);
    NegativesSnoc(vals, v);
  }

  lemma StepAuditsNegative(vals: seq<int>, v: int)
    requires v < 0
    ensures Summary(vals + [v]) == Tally(Summary(vals).total, Summary(vals).audit + IntToString(v) + ",")
  {
    SmallSumSnoc(vals, v);
    NegativesSnoc(vals, v);
    AuditSnoc(Negatives(vals), v);
  }

  lemma StepAddsSmall(vals: seq<int>, v: int)
    requires 0 <= v < 1000
    ensures Summary(vals + [v]) == Tally(Wrap32(SmallSum(vals) + v), AuditOf(Negatives(vals)))
  {
    SnocSmall(vals, v);
    SummaryParts(vals + [v], SmallSum(vals) + v, Negatives(vals));
  }

  /** A value in [0, 999] is added to the small-value sum and is not a negative. */
  lemma SnocSmall(vals: seq<int>, v: int)
    requires 0 <= v < 1000
    ensures SmallSum(vals + [v]) == SmallSum(vals) + v
    ensures Negatives(vals + [v]) == Negatives(vals)
  {
    SmallSumSnoc(vals, v);
    NegativesSnoc(vals, v);
  }

  lemma SummaryParts(vals: seq<int>, sum: int, negs: seq<int>)
    requires SmallSum(vals) == sum && Negatives(vals) == negs
    ensures Summary(vals) == Tally(Wrap32(sum), AuditOf(negs))
  {
  }

  lemma SmallSumSnoc(vals: seq<int>, v: int)
    ensures SmallSum(vals + [v]) == SmallSum(vals) + (if 0 <= v < 1000 then v else 0)
  {
    assert (vals + [v])[..|vals|] == vals;
  }

  lemma NegativesSnoc(vals: seq<int>, v: int)
    ensures Negatives(vals + [v]) == if v < 0 then Negatives(vals) + [v] else Negatives(vals)
  {
    assert (vals + [v])[..|vals|] == vals;
    assert Negatives(vals) + [] == Negatives(vals);
  }

  lemma AuditSnoc(negs: seq<int>, v: int)
    ensures AuditOf(negs + [v]) == AuditOf(negs) + IntToString(v) + ","
  {
    assert (negs + [v])[..|negs|] == negs;
  }

  /** The loop's total is the small values' sum and its audit text lists the negatives. */
  lemma {:induction false} ScanComputes(tokens: seq<string>)
    ensures Scan(tokens) == if ParseAll(tokens).None? then None else Some(Summary(ParseAll(tokens).value))
    decreases |tokens|
  {
    if tokens != [] {
      var init := tokens[..|tokens| - 1];
      ScanComputes(init);
      var parsedInit := ParseAll(init);
      var last := TryParse(tokens[|tokens| - 1]);
      if parsedInit.Some? && last.Some? {
        StepSummary(parsedInit.value, last.value);
      }
    }
  }

  /** The audit text is empty exactly when there are no negatives; otherwise trimming its final
      comma leaves the comma-separated list of them. */
  lemma {:induction false} AuditTrimmed(negs: seq<int>)
    ensures AuditOf(negs) == "" <==> negs == []
    ensures negs != [] ==> TrimEnd(AuditOf(negs), ',') == JoinInts(negs)
    decreases |negs|
  {
    if negs != [] {
      AuditIsListWithComma(negs);
      var joined := JoinInts(negs);
      assert (joined + ",")[..|joined|] == joined;
    }
  }

  lemma {:induction false} AuditIsListWithComma(negs: seq<int>)
    requires negs != []
    ensures AuditOf(negs) == JoinInts(negs) + ","
    decreases |negs|
  {
    if |negs| > 1 {
      AuditIsListWithComma(negs[..|negs| - 1]);
    }
  }

  /** The loop followed by the final check gives the reference outcome. */
  lemma ConcludeScan(tokens: seq<string>)
    ensures Conclude(Scan(tokens)) == Reference(tokens)
  {
    ScanComputes(tokens);
    if ParseAll(tokens).Some? {
      AuditTrimmed(Negatives(ParseAll(tokens).value));
    }
  }

  /** The sum is the plain mathematical sum, never negative, as long as it fits in 32 bits,
      which holds for up to 2,149,633 tokens. */
  lemma SumFits(vals: seq<int>)
    requires 999 * |vals| <= MaxInt32
    ensures Wrap32(SmallSum(vals)) == SmallSum(vals) >= 0
  {
    Wrap32Keeps(SmallSum(vals));
  }

  // ---------------------------------------------------------------------------------------
  // The header

  /** For an accepted header (no '/', not empty) the numbers start right after the first '\n':
      the first occurrence of the last delimiter lies in the header, since positions 0 and 1
      hold '/', so the next '\n' is the header's own. */
  lemma {:induction false} BodyFollowsHeader(s: string, n: nat)
    requires StartsWithSlashes(s) && 2 < n < |s| && s[n] == '\n'
    requires forall m :: 0 <= m < n ==> s[m] != '\n'
    requires '/' !in s[2..n]
    ensures CutHeader(s, s[2..n]) == s[n + 1..]
  {
    var delims := s[2..n];
    var last := s[n - 1];
    assert delims[|delims| - 1] == last;
    var i := IndexOf(s, last);
    assert last != '/';
    assert 2 <= i <= n - 1;
    var afterDelim := s[i + 1..];
    var j := IndexOf(afterDelim, '\n');
    assert afterDelim[n - i - 1] == '\n';
    assert j == n - i - 1 by {
      assert 0 <= j <= n - i - 1;
      assert afterDelim[j] == s[i + 1 + j];
    }
    assert afterDelim[j + 1..] == s[n + 1..];
  }

  // ---------------------------------------------------------------------------------------
  // Add, case by case

  /** Empty input sums to 0; null input throws ArgumentNullException. */
  lemma AddEmptyOrNull()
    ensures AddSpec(Some("")) == Ok(0)
    ensures AddSpec(None) == ArgumentNull(None)
  {
  }

  /** Without a "//" prefix the body is split on commas only. */
  lemma AddWithoutHeader(s: string)
    requires s != "" && !StartsWithSlashes(s)
    ensures AddSpec(Some(s)) == Reference(Split(s, [',']))
  {
    HeaderTest(s);
    ConcludeScan(Split(s, [',']));
  }

  /** With a "//" prefix and a '\n' at n (the first one), the header is s[2..n]: it may not hold
      '/', it may not be empty, and otherwise its characters, and only they, split the text after
      the '\n'. */
  lemma AddWithHeader(s: string, n: nat)
    requires StartsWithSlashes(s) && 2 <= n < |s| && s[n] == '\n'
    requires forall m :: 0 <= m < n ==> s[m] != '\n'
    ensures AddSpec(Some(s)) ==
      if '/' in s[2..n] then ArgumentOutOfRange(InvalidHeader)
      else if n == 2 then InvalidOperation
      else Reference(Split(s[n + 1..], s[2..n]))
  {
    HeaderTest(s);
    HeaderIsFirstLine(s);
    assert IndexOf(s, '\n') == n;
    if '/' !in s[2..n] && n > 2 {
      BodyFollowsHeader(s, n);
      ConcludeScan(Split(s[n + 1..], s[2..n]));
    }
  }

  /** A "//" prefix without any '\n' is not a header: the comma split's first token starts with
      '/', which never parses. */
  lemma AddHeaderWithoutNewline(s: string)
    requires StartsWithSlashes(s) && forall m :: 0 <= m < |s| ==> s[m] != '\n'
    ensures AddSpec(Some(s)) == ArgumentNull(Some(InvalidCharacters))
  {
    HeaderTest(s);
    HeaderIsFirstLine(s);
    var tokens := Split(s, [',']);
    SplitFirstPiece(s, [',']);
    TryParseRejectsOtherFirstChar(tokens[0]);
    ScanStopsAtFailure(tokens, 0);
  }

  /** An accepted header followed by nothing leaves one empty token, which does not parse. */
  lemma AddHeaderOnly(s: string, n: nat)
    requires StartsWithSlashes(s) && 2 < n && |s| == n + 1 && s[n] == '\n'
    requires forall m :: 0 <= m < n ==> s[m] != '\n'
    requires '/' !in s[2..n]
    ensures AddSpec(Some(s)) == ArgumentNull(Some(InvalidCharacters))
  {
    AddWithHeader(s, n);
    assert s[n + 1..] == "";
    TryParseNeedsDigit("");
  }
}
