/** Concrete runs of the balanced-span scanner. */
module ScannerExamples {
  import opened Wrappers
  import opened Variants
  import opened Scanner

  const Plain := ScanState(1, false, None)

  predicate Delimiter(c: char) {
    c == '"' || c == '\'' || c == '`' || c == '/'
  }

  /** A character that is neither a delimiter nor a bracket, outside a literal. */
  lemma StepOrdinary(v: Variant, s: string, open: char, close: char, i: nat, st: ScanState)
    requires i < |s| && st.literal.None? && !Delimiter(s[i]) && s[i] != open && s[i] != close && st.counter != 0
    ensures ScanFrom(v, s, open, close, i, st) == ScanFrom(v, s, open, close, i + 1, ScanState(st.counter, s[i] == '\\' && !st.escaped, None))
  {
    OpeningSegmentCases(v, s, i);
  }

  /** An opening bracket outside a literal. */
  lemma StepOpen(v: Variant, s: string, open: char, close: char, i: nat, st: ScanState)
    requires i < |s| && st.literal.None? && !Delimiter(s[i]) && s[i] == open && s[i] != '\\' && st.counter != -1
    ensures ScanFrom(v, s, open, close, i, st) == ScanFrom(v, s, open, close, i + 1, ScanState(st.counter + 1, false, None))
  {
    OpeningSegmentCases(v, s, i);
  }

  /** The closing bracket that brings the counter back to zero. */
  lemma StepLastClose(v: Variant, s: string, open: char, close: char, i: nat, st: ScanState)
    requires i < |s| && st.literal.None? && !Delimiter(s[i]) && s[i] == close && s[i] != open && st.counter == 1
    ensures ScanFrom(v, s, open, close, i, st) == Ok(i)
  {
    OpeningSegmentCases(v, s, i);
  }

  /** A quote outside a literal, not escaped, opens a string. */
  lemma StepQuote(v: Variant, s: string, open: char, close: char, i: nat, st: ScanState)
    requires i < |s| && st.literal.None? && !st.escaped && s[i] == '\''
    ensures ScanFrom(v, s, open, close, i, st) == ScanFrom(v, s, open, close, i + 1, st.(literal := Some(Segment('\'', '\'', false))))
  {
    OpeningSegmentCases(v, s, i);
  }

  /** A slash whose prefix test passes opens a regular expression. */
  lemma StepRegex(v: Variant, s: string, open: char, close: char, i: nat, st: ScanState)
    requires i < |s| && st.literal.None? && !st.escaped && s[i] == '/' && PrefixMatches(v, LookBehind(s, i))
    ensures ScanFrom(v, s, open, close, i, st) == ScanFrom(v, s, open, close, i + 1, st.(literal := Some(Segment('/', '/', true))))
  {
    OpeningSegmentCases(v, s, i);
  }

  /** A slash whose prefix test fails is an ordinary character. */
  lemma StepDivision(v: Variant, s: string, open: char, close: char, i: nat, st: ScanState)
    requires i < |s| && st.literal.None? && !st.escaped && s[i] == '/' && !PrefixMatches(v, LookBehind(s, i))
    requires open != '/' && close != '/' && st.counter != 0
    ensures ScanFrom(v, s, open, close, i, st) == ScanFrom(v, s, open, close, i + 1, ScanState(st.counter, false, None))
  {
    SlashOpensRegex(v, s, open, close, i, st);
  }

  /** Inside a literal, a character other than its end, not escaped. */
  lemma StepInside(v: Variant, s: string, open: char, close: char, i: nat, st: ScanState)
    requires i < |s| && st.literal.Some? && s[i] != st.literal.value.end
    ensures ScanFrom(v, s, open, close, i, st) == ScanFrom(v, s, open, close, i + 1, st.(escaped := s[i] == '\\' && !st.escaped))
  {
  }

  /** Inside a literal, the character after an unescaped backslash. */
  lemma StepEscaped(v: Variant, s: string, open: char, close: char, i: nat, st: ScanState)
    requires i < |s| && st.literal.Some? && st.escaped
    ensures ScanFrom(v, s, open, close, i, st) == ScanFrom(v, s, open, close, i + 1, st.(escaped := false))
  {
  }

  /** The unescaped end of a literal. */
  lemma StepEnd(v: Variant, s: string, open: char, close: char, i: nat, st: ScanState)
    requires i < |s| && st.literal.Some? && !st.escaped && s[i] == st.literal.value.end
    ensures ScanFrom(v, s, open, close, i, st) == ScanFrom(v, s, open, close, i + 1, st.(literal := None))
  {
  }

  // Each run below is proved in pieces of a few loop iterations.

  lemma QuotedBrace0(v: Variant, s: string)
    requires s == "{a:'}',b:1}"
    ensures ScanFrom(v, s, '{', '}', 0, Initial) == ScanFrom(v, s, '{', '}', 3, Plain)
  {
    StepOpen(v, s, '{', '}', 0, Initial);
    StepOrdinary(v, s, '{', '}', 1, Plain);
    StepOrdinary(v, s, '{', '}', 2, Plain);
  }

  lemma QuotedBrace1(v: Variant, s: string)
    requires s == "{a:'}',b:1}"
    ensures ScanFrom(v, s, '{', '}', 3, Plain) == ScanFrom(v, s, '{', '}', 6, Plain)
  {
    StepQuote(v, s, '{', '}', 3, Plain);
    StepInside(v, s, '{', '}', 4, ScanState(1, false, Some(Segment('\'', '\'', false))));
    StepEnd(v, s, '{', '}', 5, ScanState(1, false, Some(Segment('\'', '\'', false))));
  }

  lemma QuotedBrace2(v: Variant, s: string)
    requires s == "{a:'}',b:1}"
    ensures ScanFrom(v, s, '{', '}', 6, Plain) == ScanFrom(v, s, '{', '}', 9, Plain)
  {
    StepOrdinary(v, s, '{', '}', 6, Plain);
    StepOrdinary(v, s, '{', '}', 7, Plain);
    StepOrdinary(v, s, '{', '}', 8, Plain);
  }

  lemma QuotedBrace3(v: Variant, s: string)
    requires s == "{a:'}',b:1}"
    ensures ScanFrom(v, s, '{', '}', 9, Plain) == Ok(10)
  {
    StepOrdinary(v, s, '{', '}', 9, Plain);
    StepLastClose(v, s, '{', '}', 10, Plain);
  }

  /** A quoted `}` is not counted: `{a:'}',b:1}` is returned whole. */
  lemma QuotedBraceIgnored(v: Variant)
    ensures BalancedSpan(v, "{a:'}',b:1}") == Ok("{a:'}',b:1}")
  {
    var s := "{a:'}',b:1}";
    QuotedBrace0(v, s);
    QuotedBrace1(v, s);
    QuotedBrace2(v, s);
    QuotedBrace3(v, s);
    assert s[..11] == s;
  }

  lemma Unclosed0(v: Variant, s: string)
    requires s == "{a:1"
    ensures ScanFrom(v, s, '{', '}', 0, Initial) == ScanFrom(v, s, '{', '}', 4, Plain)
  {
    StepOpen(v, s, '{', '}', 0, Initial);
    StepOrdinary(v, s, '{', '}', 1, Plain);
    StepOrdinary(v, s, '{', '}', 2, Plain);
    StepOrdinary(v, s, '{', '}', 3, Plain);
  }

  /** `{a:1` never closes. */
  lemma UnclosedBrace(v: Variant)
    ensures BalancedSpan(v, "{a:1") == Err(UnbalancedBrackets)
  {
    var s := "{a:1";
    Unclosed0(v, s);
  }

  /** Text that does not start with a bracket is refused. */
  lemma NotABracket(v: Variant)
    ensures BalancedSpan(v, "a{}") == Err(UnsupportedStart)
    ensures BalancedSpan(v, "") == Err(UnsupportedStart)
  {
  }

  lemma Escaped0(v: Variant, s: string)
    requires s == "['\\']',1]"
    ensures ScanFrom(v, s, '[', ']', 0, Initial) == ScanFrom(v, s, '[', ']', 3, ScanState(1, true, Some(Segment('\'', '\'', false))))
  {
    StepOpen(v, s, '[', ']', 0, Initial);
    StepQuote(v, s, '[', ']', 1, Plain);
    StepInside(v, s, '[', ']', 2, ScanState(1, false, Some(Segment('\'', '\'', false))));
  }

  lemma Escaped1(v: Variant, s: string)
    requires s == "['\\']',1]"
    ensures ScanFrom(v, s, '[', ']', 3, ScanState(1, true, Some(Segment('\'', '\'', false)))) == ScanFrom(v, s, '[', ']', 6, Plain)
  {
    StepEscaped(v, s, '[', ']', 3, ScanState(1, true, Some(Segment('\'', '\'', false))));
    StepInside(v, s, '[', ']', 4, ScanState(1, false, Some(Segment('\'', '\'', false))));
    StepEnd(v, s, '[', ']', 5, ScanState(1, false, Some(Segment('\'', '\'', false))));
  }

  lemma Escaped2(v: Variant, s: string)
    requires s == "['\\']',1]"
    ensures ScanFrom(v, s, '[', ']', 6, Plain) == Ok(8)
  {
    StepOrdinary(v, s, '[', ']', 6, Plain);
    StepOrdinary(v, s, '[', ']', 7, Plain);
    StepLastClose(v, s, '[', ']', 8, Plain);
  }

  /** An escaped quote does not end the string: `['\\']',1]` is returned whole. */
  lemma EscapedQuote(v: Variant)
    ensures BalancedSpan(v, "['\\']',1]") == Ok("['\\']',1]")
  {
    var s := "['\\']',1]";
    Escaped0(v, s);
    Escaped1(v, s);
    Escaped2(v, s);
    assert s[..9] == s;
  }

  lemma SlashPlatforms0(s: string)
    requires s == "{a:b//}/}"
    ensures ScanFrom(Platforms, s, '{', '}', 0, Initial) == ScanFrom(Platforms, s, '{', '}', 4, Plain)
  {
    StepOpen(Platforms, s, '{', '}', 0, Initial);
    StepOrdinary(Platforms, s, '{', '}', 1, Plain);
    StepOrdinary(Platforms, s, '{', '}', 2, Plain);
    StepOrdinary(Platforms, s, '{', '}', 3, Plain);
  }

  lemma SlashPlatforms1(s: string)
    requires s == "{a:b//}/}"
    ensures ScanFrom(Platforms, s, '{', '}', 4, Plain) == Ok(6)
  {
    assert LookBehind(s, 4) == "{a:b" && LookBehind(s, 5) == "{a:b/";
    StepDivision(Platforms, s, '{', '}', 4, Plain);
    StepDivision(Platforms, s, '{', '}', 5, Plain);
    StepLastClose(Platforms, s, '{', '}', 6, Plain);
  }

  lemma SlashStructures0(s: string)
    requires s == "{a:b//}/}"
    ensures ScanFrom(Structures, s, '{', '}', 0, Initial) == ScanFrom(Structures, s, '{', '}', 4, Plain)
  {
    StepOpen(Structures, s, '{', '}', 0, Initial);
    StepOrdinary(Structures, s, '{', '}', 1, Plain);
    StepOrdinary(Structures, s, '{', '}', 2, Plain);
    StepOrdinary(Structures, s, '{', '}', 3, Plain);
  }

  lemma SlashStructures1(s: string)
    requires s == "{a:b//}/}"
    ensures ScanFrom(Structures, s, '{', '}', 4, Plain) == ScanFrom(Structures, s, '{', '}', 6, ScanState(1, false, Some(Segment('/', '/', true))))
  {
    assert LookBehind(s, 4) == "{a:b" && LookBehind(s, 5) == "{a:b/";
    StepDivision(Structures, s, '{', '}', 4, Plain);
    StepRegex(Structures, s, '{', '}', 5, Plain);
  }

  lemma SlashStructures2(s: string)
    requires s == "{a:b//}/}"
    ensures ScanFrom(Structures, s, '{', '}', 6, ScanState(1, false, Some(Segment('/', '/', true)))) == Ok(8)
  {
    StepInside(Structures, s, '{', '}', 6, ScanState(1, false, Some(Segment('/', '/', true))));
    StepEnd(Structures, s, '{', '}', 7, ScanState(1, false, Some(Segment('/', '/', true))));
    StepLastClose(Structures, s, '{', '}', 8, Plain);
  }

  /**
   * Where the two copies differ: in `{a:b//}/}` the second `/` follows a `/`,
   * which opens a regular expression only in the Structures copy.
   */
  lemma SlashAfterSlash()
    ensures BalancedSpan(Platforms, "{a:b//}/}") == Ok("{a:b//}")
    ensures BalancedSpan(Structures, "{a:b//}/}") == Ok("{a:b//}/}")
  {
    var s := "{a:b//}/}";
    SlashPlatforms0(s);
    SlashPlatforms1(s);
    SlashStructures0(s);
    SlashStructures1(s);
    SlashStructures2(s);
    assert s[..7] == "{a:b//}";
    assert s[..9] == s;
  }
}
