/**
 * `cutAfterJS`: the balanced-span scanner. Given text that starts with `[` or
 * `{`, it returns the shortest prefix whose brackets of that kind balance,
 * where brackets inside string, template and regular-expression literals are
 * not counted.
 */
module Scanner {
  import opened Wrappers
  import opened JsText
  import opened Variants

  datatype CutError = UnsupportedStart | UnbalancedBrackets

  /** An entry of `ESCAPING_SEGMENT` / `EsSegment`; `prefixed` marks the regex entry, whose start needs a prefix test. */
  datatype Segment = Segment(start: char, end: char, prefixed: bool)

  /** The literal kinds, in the order the source tries them. */
  function Segments(): seq<Segment> {
    [Segment('"', '"', false), Segment('\'', '\'', false), Segment('`', '`', false), Segment('/', '/', true)]
  }

  /** The bracket expression of the regex-prefix test: `[[{:;,]`, plus `/` in the Structures copy. */
  predicate IsPrefixChar(v: Variant, c: char) {
    c == '[' || c == '{' || c == ':' || c == ';' || c == ',' || (v == Structures && c == '/')
  }

  /** `mixedJson.substring(i - 10, i)`: a negative start is clamped to 0. */
  function LookBehind(s: string, i: nat): (w: string)
    requires i <= |s|
    ensures |w| == if i >= 10 then 10 else i
    ensures w == s[i - |w|..i]
  {
    s[if i >= 10 then i - 10 else 0..i]
  }

  /**
   * Whether `w.match(/(^|[[{:;,])\s?$/)` succeeds: `w` is empty or one
   * whitespace character (the `^` alternative), or it ends in a prefix
   * character optionally followed by one whitespace character.
   */
  predicate PrefixMatches(v: Variant, w: string) {
    || |w| == 0
    || (|w| == 1 && IsSpace(w[0]))
    || IsPrefixChar(v, w[|w| - 1])
    || (|w| >= 2 && IsSpace(w[|w| - 1]) && IsPrefixChar(v, w[|w| - 2]))
  }

  /**
   * Over the ten-character window, the regex test only looks at the last two
   * characters before `i`, and `^` means the window reaches the start of the
   * text with at most one whitespace character.
   */
  lemma PrefixWindow(v: Variant, s: string, i: nat)
    requires i <= |s|
    ensures PrefixMatches(v, LookBehind(s, i)) <==>
      || i == 0
      || (i == 1 && IsSpace(s[0]))
      || (i >= 1 && IsPrefixChar(v, s[i - 1]))
      || (i >= 2 && IsSpace(s[i - 1]) && IsPrefixChar(v, s[i - 2]))
  {
    var w := LookBehind(s, i);
    if i >= 1 {
      assert w[|w| - 1] == s[i - 1];
    }
    if i >= 2 {
      assert w[|w| - 2] == s[i - 2];
    }
  }

  /**
   * The inner `for (const escaped of …)` loop: the first segment that starts
   * with character `i` and, if it is the regex one, passes the prefix test.
   */
  function OpeningSegment(v: Variant, segs: seq<Segment>, s: string, i: nat): Option<Segment>
    requires i < |s|
  {
    if segs == [] then None
    else if s[i] == segs[0].start && (!segs[0].prefixed || PrefixMatches(v, LookBehind(s, i))) then Some(segs[0])
    else OpeningSegment(v, segs[1..], s, i)
  }

  /**
   * The literal that character `i` opens: a double quote, a single quote or a
   * backquote always opens its string, and a slash opens a regular expression
   * only when the prefix test passes; any other character opens nothing.
   */
  lemma OpeningSegmentCases(v: Variant, s: string, i: nat)
    requires i < |s|
    ensures OpeningSegment(v, Segments(), s, i) ==
      if s[i] == '"' then Some(Segment('"', '"', false))
      else if s[i] == '\'' then Some(Segment('\'', '\'', false))
      else if s[i] == '`' then Some(Segment('`', '`', false))
      else if s[i] == '/' && PrefixMatches(v, LookBehind(s, i)) then Some(Segment('/', '/', true))
      else None
  {
    var segs := Segments();
    var s1, s2, s3 := segs[1..], segs[2..], segs[3..];
    assert s1[1..] == s2 && s2[1..] == s3 && s3[1..] == [];
    assert OpeningSegment(v, s3, s, i) == if s[i] == '/' && PrefixMatches(v, LookBehind(s, i)) then Some(s3[0]) else None;
    assert OpeningSegment(v, s2, s, i) == if s[i] == '`' then Some(s2[0]) else OpeningSegment(v, s3, s, i);
    assert OpeningSegment(v, s1, s, i) == if s[i] == '\'' then Some(s1[0]) else OpeningSegment(v, s2, s, i);
    assert OpeningSegment(v, segs, s, i) == if s[i] == '"' then Some(segs[0]) else OpeningSegment(v, s1, s, i);
  }

  /** The loop variables `counter`, `isEscaped` and `isEscapedObject`. */
  datatype ScanState = ScanState(counter: int, escaped: bool, literal: Option<Segment>)

  const Initial := ScanState(0, false, None)

  /** What one iteration of the loop does: go on with a new state, or return the span ending at this index. */
  datatype Step = Next(state: ScanState) | Stop

  /** One iteration of the loop body at index `i`. */
  function StepAt(v: Variant, s: string, open: char, close: char, i: nat, st: ScanState): Step
    requires i < |s|
  {
    var c := s[i];
    if !st.escaped && st.literal.Some? && c == st.literal.value.end then
      Next(st.(literal := None))
    else if !st.escaped && st.literal.None? && OpeningSegment(v, Segments(), s, i).Some? then
      Next(st.(literal := OpeningSegment(v, Segments(), s, i)))
    else
      var escaped := c == '\\' && !st.escaped;
      if st.literal.Some? then Next(st.(escaped := escaped))
      else
        var counter := if c == open then st.counter + 1 else if c == close then st.counter - 1 else st.counter;
        if counter == 0 then Stop else Next(ScanState(counter, escaped, None))
  }

  /** The loop from index `i` on: the index at which it returns, or the throw after the loop. */
  function ScanFrom(v: Variant, s: string, open: char, close: char, i: nat, st: ScanState): Result<nat, CutError>
    requires i <= |s|
    decreases |s| - i
  {
    if i == |s| then Err(UnbalancedBrackets)
    else match StepAt(v, s, open, close, i, st)
      case Stop => Ok(i)
      case Next(st') => ScanFrom(v, s, open, close, i + 1, st')
  }

  /** The bracket that closes `open`. */
  function Closing(open: char): char {
    if open == '[' then ']' else '}'
  }

  predicate StartsWithBracket(s: string) {
    |s| > 0 && (s[0] == '[' || s[0] == '{')
  }

  /** What `cutAfterJS(mixedJson)` returns or throws. */
  function BalancedSpan(v: Variant, s: string): Result<string, CutError> {
    if !StartsWithBracket(s) then Err(UnsupportedStart)
    else match ScanFrom(v, s, s[0], Closing(s[0]), 0, Initial)
      case Ok(i) => if i < |s| then Ok(s[..i + 1]) else Err(UnbalancedBrackets)
      case Err(e) => Err(e)
  }

  /**
   * The state before index `n` when the loop has not returned earlier; `None`
   * once it has. This is the reference the lemmas below speak in.
   */
  function StateBefore(v: Variant, s: string, open: char, close: char, n: nat): Option<ScanState>
    requires n <= |s|
  {
    if n == 0 then Some(Initial)
    else match StateBefore(v, s, open, close, n - 1)
      case None => None
      case Some(st) =>
        match StepAt(v, s, open, close, n - 1, st)
        case Stop => None
        case Next(st') => Some(st')
  }

  /** The loop returns at index `i`. */
  predicate StopsAt(v: Variant, s: string, open: char, close: char, i: nat)
    requires i < |s|
  {
    StateBefore(v, s, open, close, i).Some? && StepAt(v, s, open, close, i, StateBefore(v, s, open, close, i).value) == Stop
  }

  lemma {:induction false} ScanFromStops(v: Variant, s: string, open: char, close: char, i: nat)
    requires i <= |s| && StateBefore(v, s, open, close, i).Some?
    ensures var r := ScanFrom(v, s, open, close, i, StateBefore(v, s, open, close, i).value);
      && (r.Ok? ==> i <= r.value < |s| && StopsAt(v, s, open, close, r.value))
      && (r.Err? ==> r.error == UnbalancedBrackets && forall j :: i <= j < |s| ==> !StopsAt(v, s, open, close, j))
    decreases |s| - i
  {
    if i < |s| {
      var st := StateBefore(v, s, open, close, i).value;
      match StepAt(v, s, open, close, i, st)
      case Stop =>
      case Next(st') =>
        assert StateBefore(v, s, open, close, i + 1) == Some(st');
        ScanFromStops(v, s, open, close, i + 1);
    }
  }

  /** Once the loop has returned, there is no later state. */
  lemma {:induction false} NoStateAfterStop(v: Variant, s: string, open: char, close: char, i: nat, j: nat)
    requires i < j <= |s| && StopsAt(v, s, open, close, i)
    ensures StateBefore(v, s, open, close, j).None?
    decreases j
  {
    if j > i + 1 {
      NoStateAfterStop(v, s, open, close, i, j - 1);
    }
  }

  /** After the first character the counter is at least one while the loop runs. */
  lemma {:induction false} CounterPositive(v: Variant, s: string, n: nat)
    requires StartsWithBracket(s) && 1 <= n <= |s|
    requires StateBefore(v, s, s[0], Closing(s[0]), n).Some?
    ensures StateBefore(v, s, s[0], Closing(s[0]), n).value.counter >= 1
  {
    var open, close := s[0], Closing(s[0]);
    if n == 1 {
      OpeningSegmentCases(v, s, 0);
    } else {
      CounterPositive(v, s, n - 1);
    }
  }

  /**
   * The contract of `cutAfterJS`: it throws `UnsupportedStart` exactly when the
   * text does not begin with `[` or `{`. Otherwise it returns the prefix that
   * ends at the first index where the counter of out-of-literal brackets comes
   * back to zero, and that prefix ends with the matching closing bracket; it
   * throws `UnbalancedBrackets` exactly when no such index exists.
   */
  lemma BalancedSpanContract(v: Variant, s: string)
    ensures BalancedSpan(v, s) == Err(UnsupportedStart) <==> !StartsWithBracket(s)
    ensures StartsWithBracket(s) ==>
      var open, close := s[0], Closing(s[0]);
      && (BalancedSpan(v, s) == Err(UnbalancedBrackets) <==> forall j :: 0 <= j < |s| ==> !StopsAt(v, s, open, close, j))
      && (BalancedSpan(v, s).Ok? ==>
            var r := BalancedSpan(v, s).value;
            && 2 <= |r| <= |s| && r == s[..|r|]
            && r[0] == open && r[|r| - 1] == close
            && StopsAt(v, s, open, close, |r| - 1)
            && (forall j :: 0 <= j < |r| - 1 ==> !StopsAt(v, s, open, close, j))
            && (forall j :: 1 <= j < |r| ==> StateBefore(v, s, open, close, j).Some? && StateBefore(v, s, open, close, j).value.counter >= 1))
  {
    if StartsWithBracket(s) {
      var open, close := s[0], Closing(s[0]);
      ScanFromStops(v, s, open, close, 0);
      var r := ScanFrom(v, s, open, close, 0, Initial);
      if r.Ok? {
        var i := r.value;
        forall j | 0 <= j <= i ensures StateBefore(v, s, open, close, j).Some? {
          if StateBefore(v, s, open, close, j).None? {
            StateGone(v, s, open, close, j, i);
          }
        }
        forall j | 0 <= j < i ensures !StopsAt(v, s, open, close, j) {
          if StopsAt(v, s, open, close, j) {
            NoStateAfterStop(v, s, open, close, j, i);
          }
        }
        forall j | 1 <= j <= i ensures StateBefore(v, s, open, close, j).value.counter >= 1 {
          CounterPositive(v, s, j);
        }
        assert i >= 1 by {
          OpeningSegmentCases(v, s, 0);
        }
        var st := StateBefore(v, s, open, close, i).value;
        assert st.literal.None? && s[i] == close by {
          assert StepAt(v, s, open, close, i, st) == Stop;
        }
      }
    }
  }

  /** What a caller of `cutAfterJS` relies on: the error cases, and a span that is a prefix from the opening to the matching closing bracket. */
  lemma BalancedSpanShape(v: Variant, s: string)
    ensures !StartsWithBracket(s) ==> BalancedSpan(v, s) == Err(UnsupportedStart)
    ensures StartsWithBracket(s) && BalancedSpan(v, s).Err? ==> BalancedSpan(v, s).error == UnbalancedBrackets
    ensures StartsWithBracket(s) && BalancedSpan(v, s).Ok? ==>
      var r := BalancedSpan(v, s).value;
      && 2 <= |r| <= |s| && r == s[..|r|] && r[0] == s[0] && r[|r| - 1] == Closing(s[0])
  {
    BalancedSpanContract(v, s);
  }

  /** A state that is gone stays gone. */
  lemma {:induction false} StateGone(v: Variant, s: string, open: char, close: char, i: nat, j: nat)
    requires i <= j <= |s| && StateBefore(v, s, open, close, i).None?
    ensures StateBefore(v, s, open, close, j).None?
    decreases j
  {
    if j > i {
      StateGone(v, s, open, close, i, j - 1);
    }
  }

  /**
   * Inside a literal the counter is not touched, and a closing delimiter right
   * after an unescaped backslash does not end the literal.
   */
  lemma LiteralSuspendsCounting(v: Variant, s: string, open: char, close: char, i: nat, st: ScanState)
    requires i < |s| && st.literal.Some?
    ensures StepAt(v, s, open, close, i, st).Next?
    ensures StepAt(v, s, open, close, i, st).state.counter == st.counter
    ensures st.escaped ==> StepAt(v, s, open, close, i, st).state.literal == st.literal
    ensures st.escaped ==> !StepAt(v, s, open, close, i, st).state.escaped
    ensures !st.escaped && s[i] == '\\' && s[i] != st.literal.value.end ==> StepAt(v, s, open, close, i, st).state == st.(escaped := true)
  {
  }

  /** Outside a literal, a `/` opens a regular-expression literal exactly when the prefix test passes. */
  lemma SlashOpensRegex(v: Variant, s: string, open: char, close: char, i: nat, st: ScanState)
    requires i < |s| && s[i] == '/' && !st.escaped && st.literal.None?
    ensures StepAt(v, s, open, close, i, st).Next? && StepAt(v, s, open, close, i, st).state.literal.Some?
      <==> PrefixMatches(v, LookBehind(s, i))
  {
    OpeningSegmentCases(v, s, i);
  }

  /** The loop of `cutAfterJS`, verbatim in structure. */
  method CutAfterJS(v: Variant, mixedJson: string) returns (r: Result<string, CutError>)
    ensures r == BalancedSpan(v, mixedJson)
  {
    var open, close;
    if |mixedJson| > 0 && mixedJson[0] == '[' {
      open, close := '[', ']';
    } else if |mixedJson| > 0 && mixedJson[0] == '{' {
      open, close := '{', '}';
    } else {
      return Err(UnsupportedStart);
    }

    var counter, isEscaped, isEscapedObject := 0, false, None;
    for i := 0 to |mixedJson|
      invariant ScanFrom(v, mixedJson, open, close, 0, Initial)
        == ScanFrom(v, mixedJson, open, close, i, ScanState(counter, isEscaped, isEscapedObject))
    {
      ghost var before := ScanState(counter, isEscaped, isEscapedObject);
      var c := mixedJson[i];
      if !isEscaped && isEscapedObject.Some? && c == isEscapedObject.value.end {
        isEscapedObject := None;
        continue;
      } else if !isEscaped && isEscapedObject.None? {
        var segments := Segments();
        for k := 0 to |segments|
          invariant isEscapedObject.None? ==> OpeningSegment(v, segments, mixedJson, i) == OpeningSegment(v, segments[k..], mixedJson, i)
          invariant isEscapedObject.Some? ==> isEscapedObject == OpeningSegment(v, segments, mixedJson, i)
        {
          var escaped := segments[k];
          if c != escaped.start {
            continue;
          }
          if !escaped.prefixed || PrefixMatches(v, LookBehind(mixedJson, i)) {
            isEscapedObject := Some(escaped);
            break;
          }
        }
        if isEscapedObject.Some? {
          continue;
        }
      }

      isEscaped := c == '\\' && !isEscaped;
      if isEscapedObject.Some? {
        continue;
      }

      if c == open {
        counter := counter + 1;
      } else if c == close {
        counter := counter - 1;
      }
      if counter == 0 {
        assert StepAt(v, mixedJson, open, close, i, before) == Stop;
        return Ok(mixedJson[..i + 1]);
      }
    }
    return Err(UnbalancedBrackets);
  }
}
