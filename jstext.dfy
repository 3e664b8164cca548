/**
 * The few JavaScript string built-ins the core relies on, over `string`
 * (a sequence of characters): `\s` / `trim`, `indexOf`, the first two pieces of
 * `split`, the full `split` on one character, and decimal digit strings.
 */
module JsText {
  import opened Wrappers

  /**
   * The characters matched by `\s` in a JavaScript regular expression, which
   * are also the ones `String.prototype.trim` removes: ECMAScript's
   * WhiteSpace and LineTerminator productions.
   */
  predicate IsSpace(c: char) {
    c == '\t' || c == '\n' || c == '\U{B}' || c == '\U{C}' || c == '\r' || c == ' '
    || c == '\U{A0}' || c == '\U{1680}' || ('\U{2000}' <= c <= '\U{200A}')
    || c == '\U{2028}' || c == '\U{2029}' || c == '\U{202F}' || c == '\U{205F}'
    || c == '\U{3000}' || c == '\U{FEFF}'
  }

  /** `s.trimStart()` */
  function TrimStart(s: string): string {
    if s != [] && IsSpace(s[0]) then TrimStart(s[1..]) else s
  }

  /** `trimStart` removes the leading whitespace and nothing else. */
  lemma {:induction false} TrimStartMeaning(s: string)
    ensures var r := TrimStart(s);
      && |r| <= |s| && r == s[|s| - |r|..]
      && (r == [] || !IsSpace(r[0]))
      && forall i :: 0 <= i < |s| - |r| ==> IsSpace(s[i])
  {
    if s != [] && IsSpace(s[0]) {
      TrimStartMeaning(s[1..]);
      var r := TrimStart(s);
      assert forall i :: 1 <= i < |s| - |r| ==> s[i] == s[1..][i - 1];
    }
  }

  /** `s.trimEnd()` */
  function TrimEnd(s: string): string {
    if s != [] && IsSpace(s[|s| - 1]) then TrimEnd(s[..|s| - 1]) else s
  }

  /** `trimEnd` removes the trailing whitespace and nothing else. */
  lemma {:induction false} TrimEndMeaning(s: string)
    ensures var r := TrimEnd(s);
      && |r| <= |s| && r == s[..|r|]
      && (r == [] || !IsSpace(r[|r| - 1]))
      && forall i :: |r| <= i < |s| ==> IsSpace(s[i])
  {
    if s != [] && IsSpace(s[|s| - 1]) {
      TrimEndMeaning(s[..|s| - 1]);
    }
  }

  /** `s.trim()` */
  function Trim(s: string): string {
    TrimEnd(TrimStart(s))
  }

  /** A string with no whitespace at either end. */
  predicate Trimmed(s: string) {
    s == [] || (!IsSpace(s[0]) && !IsSpace(s[|s| - 1]))
  }

  /** `trim()` leaves a trimmed substring: no character is added. */
  lemma TrimTrimmed(s: string)
    ensures Trimmed(Trim(s))
    ensures forall c :: c in Trim(s) ==> c in s
  {
    TrimEnds(s);
    TrimAddsNothing(s);
  }

  lemma TrimEnds(s: string)
    ensures Trimmed(Trim(s))
  {
    var t := TrimStart(s);
    var r := TrimEnd(t);
    TrimStartMeaning(s);
    TrimEndMeaning(t);
    if r != [] {
      assert r[0] == t[0];
    }
  }

  lemma TrimAddsNothing(s: string)
    ensures forall c :: c in Trim(s) ==> c in s
  {
    var t := TrimStart(s);
    var r := TrimEnd(t);
    TrimStartMeaning(s);
    TrimEndMeaning(t);
    var a := |s| - |t|;
    assert r == s[a..a + |r|];
    forall c | c in r
      ensures c in s
    {
      var i :| 0 <= i < |r| && r[i] == c;
      assert s[a + i] == c;
    }
  }

  lemma TrimIdentity(s: string)
    requires Trimmed(s)
    ensures Trim(s) == s
  {
  }

  lemma {:induction false} TrimStartSpaces(pre: string, t: string)
    requires forall i :: 0 <= i < |pre| ==> IsSpace(pre[i])
    requires t == [] || !IsSpace(t[0])
    ensures TrimStart(pre + t) == t
  {
    if pre != [] {
      assert (pre + t)[1..] == pre[1..] + t;
      TrimStartSpaces(pre[1..], t);
    } else {
      assert pre + t == t;
    }
  }

  lemma {:induction false} TrimEndSpaces(t: string, post: string)
    requires forall i :: 0 <= i < |post| ==> IsSpace(post[i])
    requires t == [] || !IsSpace(t[|t| - 1])
    ensures TrimEnd(t + post) == t
  {
    if post != [] {
      assert (t + post)[..|t + post| - 1] == t + post[..|post| - 1];
      TrimEndSpaces(t, post[..|post| - 1]);
    } else {
      assert t + post == t;
    }
  }

  /** `Trim(s)` is `s` with its leading and trailing whitespace removed. */
  lemma TrimSurrounding(pre: string, s: string, post: string)
    requires forall i :: 0 <= i < |pre| ==> IsSpace(pre[i])
    requires forall i :: 0 <= i < |post| ==> IsSpace(post[i])
    requires Trimmed(s)
    ensures Trim(pre + s + post) == s
  {
    if s == [] {
      assert pre + s + post == pre + post;
      var all := pre + post;
      assert forall i :: 0 <= i < |all| ==> IsSpace(all[i]);
      TrimStartSpaces(all, []);
      assert all + [] == all;
    } else {
      assert pre + s + post == pre + (s + post);
      TrimStartSpaces(pre, s + post);
      TrimEndSpaces(s, post);
    }
  }

  /** `p` occurs in `s` at index `i`. */
  predicate OccursAt(s: string, p: string, i: int) {
    0 <= i && i + |p| <= |s| && s[i..i + |p|] == p
  }

  /** `s.indexOf(p, from)`, with `None` for -1. */
  function IndexOf(s: string, p: string, from: nat): (r: Option<nat>)
    ensures r.Some? ==> from <= r.value && r.value + |p| <= |s|
    decreases |s| - from
  {
    if from + |p| > |s| then None
    else if s[from..from + |p|] == p then Some(from)
    else IndexOf(s, p, from + 1)
  }

  /** `indexOf` finds the first occurrence from `from` on, and `None` means there is none. */
  lemma {:induction false} IndexOfMeaning(s: string, p: string, from: nat)
    ensures IndexOf(s, p, from).Some? ==> OccursAt(s, p, IndexOf(s, p, from).value)
    ensures IndexOf(s, p, from).Some? ==> forall j :: from <= j < IndexOf(s, p, from).value ==> !OccursAt(s, p, j)
    ensures IndexOf(s, p, from).None? ==> forall j :: from <= j ==> !OccursAt(s, p, j)
    decreases |s| - from
  {
    if from + |p| <= |s| && s[from..from + |p|] != p {
      IndexOfMeaning(s, p, from + 1);
    }
  }

  /** `s.includes(p)` */
  predicate Includes(s: string, p: string) {
    IndexOf(s, p, 0).Some?
  }

  /** `s.split(sep)[0]`: the text before the first occurrence of `sep`. */
  function SplitHead(s: string, sep: string): (r: string)
    requires |sep| > 0
    ensures |r| <= |s| && r == s[..|r|]
  {
    match IndexOf(s, sep, 0)
    case None => s
    case Some(i) => s[..i]
  }

  /** The head ends at the first `sep`, or at the end of `s` when there is none. */
  lemma SplitHeadMeaning(s: string, sep: string)
    requires |sep| > 0
    ensures var r := SplitHead(s, sep);
      && (forall j :: 0 <= j < |r| ==> !OccursAt(s, sep, j))
      && (|r| == |s| || OccursAt(s, sep, |r|))
  {
    IndexOfMeaning(s, sep, 0);
  }

  /**
   * `s.split(sep)[1]`: the text between the first and the second occurrence of
   * `sep` (or the end of `s`); `None` (JavaScript's undefined) when `sep` does
   * not occur.
   */
  function SplitSecond(s: string, sep: string): (r: Option<string>)
    requires |sep| > 0
    ensures r.None? <==> IndexOf(s, sep, 0).None?
  {
    match IndexOf(s, sep, 0)
    case None => None
    case Some(i) =>
      var k := i + |sep|;
      match IndexOf(s, sep, k)
      case None => Some(s[k..])
      case Some(j) => Some(s[k..j])
  }

  /** The second piece `r` starts at `k`, right after the first `sep`, and runs to the next one, or to the end of `s`. */
  lemma SplitSecondMeaning(s: string, sep: string, k: nat, r: string)
    requires |sep| > 0 && Includes(s, sep)
    requires k == IndexOf(s, sep, 0).value + |sep| && r == SplitSecond(s, sep).value
    ensures k + |r| <= |s| && s[k..k + |r|] == r
    ensures forall j :: k <= j < k + |r| ==> !OccursAt(s, sep, j)
    ensures k + |r| == |s| || OccursAt(s, sep, k + |r|)
  {
    IndexOfMeaning(s, sep, k);
    match IndexOf(s, sep, k)
    case None =>
      assert r == s[k..];
    case Some(j) =>
      assert r == s[k..j];
  }

  /** `s.split(c)` for a one-character separator: every piece, in order. */
  function SplitChar(s: string, c: char): (r: seq<string>)
    ensures |r| >= 1
    decreases |s|
  {
    if s == [] then [[]]
    else if s[0] == c then [[]] + SplitChar(s[1..], c)
    else var rest := SplitChar(s[1..], c); [[s[0]] + rest[0]] + rest[1..]
  }

  /** Pieces never contain the separator, and joining them back gives `s`. */
  lemma {:induction false} SplitCharJoin(s: string, c: char)
    ensures forall i :: 0 <= i < |SplitChar(s, c)| ==> c !in SplitChar(s, c)[i]
    ensures Join(SplitChar(s, c), [c]) == s
  {
    if s != [] {
      SplitCharJoin(s[1..], c);
      var rest := SplitChar(s[1..], c);
      if s[0] == c {
        assert SplitChar(s, c)[1..] == rest;
        JoinCons([], rest, [c]);
      } else {
        assert SplitChar(s, c) == [[s[0]] + rest[0]] + rest[1..];
        JoinCons(rest[0], rest[1..], [c]);
        JoinCons([s[0]] + rest[0], rest[1..], [c]);
        assert [rest[0]] + rest[1..] == rest;
      }
    }
  }

  /** Every character of a piece comes from `s`. */
  lemma {:induction false} SplitCharPieces(s: string, c: char)
    ensures forall i, x :: 0 <= i < |SplitChar(s, c)| && x in SplitChar(s, c)[i] ==> x in s
    decreases |s|
  {
    if s != [] {
      SplitCharPieces(s[1..], c);
      assert forall x :: x in s[1..] ==> x in s;
    }
  }

  /** Joining pieces without the separator and splitting again gives the pieces. */
  lemma {:induction false} SplitJoined(parts: seq<string>, c: char)
    requires parts != [] && forall i :: 0 <= i < |parts| ==> c !in parts[i]
    ensures SplitChar(Join(parts, [c]), c) == parts
    decreases |parts|
  {
    if |parts| == 1 {
      SplitCharNone(parts[0], c);
    } else {
      SplitJoined(parts[1..], c);
      SplitCharCons(parts[0], c, Join(parts[1..], [c]));
      assert [parts[0]] + parts[1..] == parts;
    }
  }

  /** A string without the separator is one piece. */
  lemma {:induction false} SplitCharNone(s: string, c: char)
    requires c !in s
    ensures SplitChar(s, c) == [s]
  {
    if s != [] {
      SplitCharNone(s[1..], c);
      assert [s[0]] + s[1..] == s;
    }
  }

  /** Splitting `a + [c] + b` where `a` has no separator. */
  lemma {:induction false} SplitCharCons(a: string, c: char, b: string)
    requires c !in a
    ensures SplitChar(a + [c] + b, c) == [a] + SplitChar(b, c)
  {
    if a == [] {
      assert a + [c] + b == [c] + b;
      assert ([c] + b)[1..] == b;
    } else {
      assert (a + [c] + b)[1..] == a[1..] + [c] + b;
      SplitCharCons(a[1..], c, b);
      assert [a[0]] + a[1..] == a;
    }
  }

  /** Splitting `a + [c] + b` where `b` has no separator. */
  lemma {:induction false} SplitCharSnoc(a: string, c: char, b: string)
    requires c !in b
    ensures SplitChar(a + [c] + b, c) == SplitChar(a, c) + [b]
    decreases |a|
  {
    if a == [] {
      assert a + [c] + b == [c] + b;
      assert ([c] + b)[1..] == b;
      SplitCharNone(b, c);
    } else {
      assert (a + [c] + b)[1..] == a[1..] + [c] + b;
      SplitCharSnoc(a[1..], c, b);
    }
  }

  /** `parts.join(sep)` */
  function Join(parts: seq<string>, sep: string): string {
    if parts == [] then []
    else if |parts| == 1 then parts[0]
    else parts[0] + sep + Join(parts[1..], sep)
  }

  lemma JoinCons(head: string, tail: seq<string>, sep: string)
    ensures Join([head] + tail, sep) == if tail == [] then head else head + sep + Join(tail, sep)
  {
    assert ([head] + tail)[1..] == tail;
  }

  lemma {:induction false} JoinSnoc(parts: seq<string>, last: string, sep: string)
    requires parts != []
    ensures Join(parts + [last], sep) == Join(parts, sep) + sep + last
    decreases |parts|
  {
    if |parts| == 1 {
      assert (parts + [last])[1..] == [last];
    } else {
      assert (parts + [last])[1..] == parts[1..] + [last];
      JoinSnoc(parts[1..], last, sep);
    }
  }

  predicate IsDigit(c: char) {
    '0' <= c <= '9'
  }

  /** Every character is an ASCII decimal digit (the `\d` class of a JavaScript regular expression). */
  predicate IsDigits(s: string) {
    forall i :: 0 <= i < |s| ==> IsDigit(s[i])
  }

  /**
   * The decimal value of a digit string: what `parseInt` and `Number` give for
   * it (`Number("")` is 0, which this also gives for the empty string).
   */
  function DigitsValue(s: string): nat
    requires IsDigits(s)
  {
    if s == [] then 0 else DigitsValue(s[..|s| - 1]) * 10 + (s[|s| - 1] as int - '0' as int)
  }

  /** `String(n)` for a natural number: its shortest decimal rendering. */
  function DecimalString(n: nat): (r: string)
    ensures |r| >= 1 && IsDigits(r)
    ensures DigitsValue(r) == n
    ensures n < 10 <==> |r| == 1
  {
    if n < 10 then [('0' as int + n) as char]
    else
      var r := DecimalString(n / 10) + [('0' as int + n % 10) as char];
      assert r[..|r| - 1] == DecimalString(n / 10);
      r
  }
}
