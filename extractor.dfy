/**
 * `extractFunctions` and `extractManipulations`: locating the decipher routine,
 * its helper object and the n-code routine in the player script by splitting
 * on fixed anchors, and assembling them into self-contained source units with
 * the balanced-span scanner.
 */
module Extractor {
  import opened Wrappers
  import opened JsText
  import opened Variants
  import opened Scanner

  /** Why an extraction throws. */
  datatype ExtractError =
    /** `s.split(sep)[1]` was undefined and the next `.split` raised a TypeError. */
    | MissingPiece(separator: string)
    /** `cutAfterJS` threw. */
    | CutFailed(error: CutError)

  /**
   * How the extraction ends: with the list of units, with an exception (a
   * rejected promise or a thrown error), or never (a promise that is neither
   * resolved nor rejected).
   */
  datatype Extraction = Extracted(units: seq<string>) | Threw(error: ExtractError) | Unsettled

  const DecipherAnchor: string := "a.set(\"alr\",\"yes\");c&&(c="
  const DecipherEnd: string := "(decodeURIC"
  const NCodeAnchor: string := "&&(b=a.get(\"n\"))&&(b="
  const NCodeEnd: string := "(b)"
  const HelperAnchor: string := "a=a.split(\"\");"

  predicate EndsWith(s: string, suffix: string) {
    |suffix| <= |s| && s[|s| - |suffix|..] == suffix
  }

  /** `s.split(sep)[1].split(end)[0]`. */
  function NameBetween(s: string, sep: string, end: string): Result<string, ExtractError>
    requires |sep| > 0 && |end| > 0
  {
    match SplitSecond(s, sep)
    case None => Err(MissingPiece(sep))
    case Some(piece) => Ok(SplitHead(piece, end))
  }

  /**
   * `name` sits in `s` at `k`: no `sep` starts inside it, it holds no `end`,
   * and it stops at the end of `s`, at the next `sep` or at the next `end`.
   */
  predicate NameAt(s: string, sep: string, end: string, k: int, name: string) {
    && 0 <= k && k + |name| <= |s| && s[k..k + |name|] == name
    && (forall j :: k <= j < k + |name| ==> !OccursAt(s, sep, j))
    && (forall j :: 0 <= j < |name| ==> !OccursAt(name, end, j))
    && (k + |name| == |s| || OccursAt(s, sep, k + |name|) || OccursAt(s, end, k + |name|))
  }

  /**
   * The name is the text right after the first `sep`, up to the next `end`
   * (or the next `sep`, or the end of `s`); it throws exactly when `sep` does
   * not occur.
   */
  lemma NameBetweenMeaning(s: string, sep: string, end: string)
    requires |sep| > 0 && |end| > 0
    ensures NameBetween(s, sep, end).Err? <==> !Includes(s, sep)
    ensures NameBetween(s, sep, end).Err? ==> NameBetween(s, sep, end).error == MissingPiece(sep)
    ensures NameBetween(s, sep, end).Ok? ==>
      NameAt(s, sep, end, IndexOf(s, sep, 0).value + |sep|, NameBetween(s, sep, end).value)
  {
    if Includes(s, sep) {
      NameFound(s, sep, end);
    }
  }

  /** Where `sep` occurs, the name is taken from the second piece. */
  lemma NameFound(s: string, sep: string, end: string)
    requires |sep| > 0 && |end| > 0 && Includes(s, sep)
    ensures NameBetween(s, sep, end).Ok?
    ensures NameAt(s, sep, end, IndexOf(s, sep, 0).value + |sep|, NameBetween(s, sep, end).value)
  {
    var k, piece := IndexOf(s, sep, 0).value + |sep|, SplitSecond(s, sep).value;
    var name := SplitHead(piece, end);
    assert NameBetween(s, sep, end) == Ok(name);
    NameInSecondPiece(s, sep, end, k, piece, name);
  }

  lemma NameInSecondPiece(s: string, sep: string, end: string, k: nat, piece: string, name: string)
    requires |sep| > 0 && |end| > 0 && Includes(s, sep)
    requires k == IndexOf(s, sep, 0).value + |sep| && piece == SplitSecond(s, sep).value && name == SplitHead(piece, end)
    ensures NameAt(s, sep, end, k, name)
  {
    SplitSecondMeaning(s, sep, k, piece);
    NamePosition(s, sep, end, k, piece, name);
  }

  lemma NamePosition(s: string, sep: string, end: string, k: nat, piece: string, name: string)
    requires |sep| > 0 && |end| > 0
    requires k + |piece| <= |s| && s[k..k + |piece|] == piece
    requires forall j :: k <= j < k + |piece| ==> !OccursAt(s, sep, j)
    requires k + |piece| == |s| || OccursAt(s, sep, k + |piece|)
    requires name == SplitHead(piece, end)
    ensures NameAt(s, sep, end, k, name)
  {
    SplitHeadMeaning(piece, end);
    NoOccurrenceInPrefix(piece, name, end);
    assert s[k..k + |name|] == piece[..|name|];
    if |name| < |piece| {
      NameStopsAtEnd(s, end, k, piece, |name|);
    }
  }

  /** An `end` at position `i` of `piece`, which sits in `s` at `k`, is an `end` at `k + i` of `s`. */
  lemma NameStopsAtEnd(s: string, end: string, k: nat, piece: string, i: nat)
    requires k + |piece| <= |s| && s[k..k + |piece|] == piece
    requires OccursAt(piece, end, i)
    ensures OccursAt(s, end, k + i)
  {
    assert i + |end| <= |piece| && piece[i..i + |end|] == end;
    forall m | 0 <= m < |end| ensures s[k + i + m] == end[m] {
      assert s[k + i + m] == s[k..k + |piece|][i + m];
      assert end[m] == piece[i..i + |end|][m];
    }
    assert s[k + i..k + i + |end|] == end;
  }

  lemma NoOccurrenceInPrefix(s: string, prefix: string, p: string)
    requires |prefix| <= |s| && prefix == s[..|prefix|]
    requires forall j :: 0 <= j < |prefix| ==> !OccursAt(s, p, j)
    ensures forall j :: 0 <= j < |prefix| ==> !OccursAt(prefix, p, j)
  {
    forall j | 0 <= j < |prefix| && OccursAt(prefix, p, j) ensures OccursAt(s, p, j) {
      assert s[j..j + |p|] == prefix[j..j + |p|];
    }
  }

  /** `${name}=function(a)` */
  function FunctionStart(name: string): string {
    name + "=function(a)"
  }

  /**
   * `var NAME=function(a)` followed by the balanced span after the first
   * `NAME=function(a)` of `body`; `None` when that text does not occur.
   */
  function FunctionSource(v: Variant, body: string, name: string): Result<Option<string>, ExtractError> {
    var start := FunctionStart(name);
    match IndexOf(body, start, 0)
    case None => Ok(None)
    case Some(ndx) => RoutineAt(v, start, body[ndx + |start|..])
  }

  /** `var ` and `start`, followed by the balanced span at the start of `rest`. */
  function RoutineAt(v: Variant, start: string, rest: string): Result<Option<string>, ExtractError> {
    match BalancedSpan(v, rest)
    case Err(e) => Err(CutFailed(e))
    case Ok(span) => Ok(Some("var " + start + span))
  }

  /** `extractManipulations(caller, body)`: the helper object the routine `caller` calls, as `var NAME={…}`, or `""`. */
  function Manipulations(v: Variant, caller: string, body: string): Result<string, ExtractError> {
    var name :- NameBetween(caller, HelperAnchor, ".");
    if name == "" then Ok("")
    else
      var start := "var " + name + "={";
      match IndexOf(body, start, 0)
      case None => Ok("")
      case Some(ndx) => HelperObject(v, name, body[ndx + |start| - 1..])
  }

  /** `var NAME=` and the balanced object at the start of `rest`. */
  function HelperObject(v: Variant, name: string, rest: string): Result<string, ExtractError> {
    match BalancedSpan(v, rest)
    case Err(e) => Err(CutFailed(e))
    case Ok(span) => Ok("var " + name + "=" + span)
  }

  /** The decipher unit: helper object, routine and the call `NAME(sig);`. */
  function DecipherUnit(v: Variant, body: string, name: string): Result<Option<string>, ExtractError> {
    if name == "" then Ok(None)
    else
      var source :- FunctionSource(v, body, name);
      match source
      case None => Ok(None)
      case Some(functionBody) =>
        var manipulations :- Manipulations(v, functionBody, body);
        Ok(Some(manipulations + ";" + functionBody + ";" + name + "(sig);"))
  }

  /**
   * An n-code name with `[`, such as `Xy[0]`, is replaced by the text from the
   * first `Xy=[` up to the next `]`; the index inside the brackets is not read.
   */
  function ResolveNCodeName(body: string, name: string): Result<string, ExtractError> {
    if '[' in name then NameBetween(body, SplitHead(name, "[") + "=[", "]") else Ok(name)
  }

  /** The n-code unit: routine and the call `NAME(ncode);`. */
  function NCodeUnit(v: Variant, body: string, name: string): Result<Option<string>, ExtractError> {
    if name == "" then Ok(None)
    else
      var source :- FunctionSource(v, body, name);
      match source
      case None => Ok(None)
      case Some(functionBody) => Ok(Some(functionBody + ";" + name + "(ncode);"))
  }

  /** The n-code unit from the name between the anchors: resolve an array element, then cut the routine. */
  function NCodePart(v: Variant, body: string, name: string): Result<Option<string>, ExtractError> {
    var resolved :- ResolveNCodeName(body, name);
    NCodeUnit(v, body, resolved)
  }

  function OptionToSeq<T>(o: Option<T>): seq<T> {
    if o.Some? then [o.value] else []
  }

  /**
   * The units in the order the copy computes them. One copy finishes the
   * decipher unit before it reads the n-code name; the other reads both names first.
   */
  function Units(v: Variant, body: string): Result<seq<string>, ExtractError> {
    var decipherName :- NameBetween(body, DecipherAnchor, DecipherEnd);
    if v == Platforms then
      var decipher :- DecipherUnit(v, body, decipherName);
      var ncodeName :- NameBetween(body, NCodeAnchor, NCodeEnd);
      Append(OptionToSeq(decipher), NCodePart(v, body, ncodeName))
    else
      var ncodeName :- NameBetween(body, NCodeAnchor, NCodeEnd);
      Assemble(v, body, decipherName, ncodeName)
  }

  /** `units` followed by the n-code unit; the n-code part's error otherwise. */
  function Append(units: seq<string>, ncode: Result<Option<string>, ExtractError>): Result<seq<string>, ExtractError> {
    var unit :- ncode;
    Ok(units + OptionToSeq(unit))
  }

  /** Both units once both names are known. */
  function Assemble(v: Variant, body: string, decipherName: string, ncodeName: string): Result<seq<string>, ExtractError> {
    var decipher :- DecipherUnit(v, body, decipherName);
    Append(OptionToSeq(decipher), NCodePart(v, body, ncodeName))
  }

  /** What `extractFunctions(body)` returns, throws, or whether it never settles. */
  function Extract(v: Variant, body: string): Extraction {
    if v == Structures && body == "" then Unsettled
    else match Units(v, body)
      case Err(e) => Threw(e)
      case Ok(units) => if v == Structures && units == [] then Unsettled else Extracted(units)
  }

  // Properties of the extraction.

  /** The helper object is `""` when its name is empty or `var NAME={` is absent, and throws when `caller` lacks the anchor. */
  lemma ManipulationsAbsent(v: Variant, caller: string, body: string)
    ensures !Includes(caller, HelperAnchor) ==> Manipulations(v, caller, body) == Err(MissingPiece(HelperAnchor))
    ensures NameBetween(caller, HelperAnchor, ".") == Ok("") ==> Manipulations(v, caller, body) == Ok("")
    ensures (NameBetween(caller, HelperAnchor, ".").Ok? && !Includes(body, "var " + NameBetween(caller, HelperAnchor, ".").value + "={"))
      ==> Manipulations(v, caller, body) == Ok("")
  {
    NameBetweenMeaning(caller, HelperAnchor, ".");
  }

  /**
   * Otherwise it is `var NAME=` followed by the balanced object that starts at
   * the `{` of the first `var NAME={`; the only error left is an unbalanced object.
   */
  lemma ManipulationsFound(v: Variant, caller: string, body: string)
    requires NameBetween(caller, HelperAnchor, ".").Ok?
    requires var name := NameBetween(caller, HelperAnchor, ".").value;
      name != "" && Includes(body, "var " + name + "={")
    ensures var name := NameBetween(caller, HelperAnchor, ".").value;
      var start := "var " + name + "={";
      var rest := body[IndexOf(body, start, 0).value + |start| - 1..];
      && (Manipulations(v, caller, body).Err? ==> Manipulations(v, caller, body).error == CutFailed(UnbalancedBrackets))
      && (Manipulations(v, caller, body).Ok? ==>
            && BalancedSpan(v, rest).Ok?
            && var span := BalancedSpan(v, rest).value;
            && Manipulations(v, caller, body).value == "var " + name + "=" + span
            && 2 <= |span| <= |rest| && span == rest[..|span|] && span[0] == '{' && span[|span| - 1] == '}')
  {
    var name := NameBetween(caller, HelperAnchor, ".").value;
    var start := "var " + name + "={";
    var ndx := IndexOf(body, start, 0).value;
    assert Manipulations(v, caller, body) == HelperObject(v, name, body[ndx + |start| - 1..]);
    IndexOfMeaning(body, start, 0);
    HelperObjectSpan(v, name, body, start, ndx);
  }

  lemma HelperObjectSpan(v: Variant, name: string, body: string, start: string, ndx: nat)
    requires start == "var " + name + "={" && OccursAt(body, start, ndx)
    ensures var rest := body[ndx + |start| - 1..];
      && (HelperObject(v, name, rest).Err? ==> HelperObject(v, name, rest).error == CutFailed(UnbalancedBrackets))
      && (HelperObject(v, name, rest).Ok? ==>
            && BalancedSpan(v, rest).Ok?
            && var span := BalancedSpan(v, rest).value;
            && HelperObject(v, name, rest).value == "var " + name + "=" + span
            && 2 <= |span| <= |rest| && span == rest[..|span|] && span[0] == '{' && span[|span| - 1] == '}')
  {
    var rest := body[ndx + |start| - 1..];
    assert start[|start| - 1] == '{';
    assert rest[0] == body[ndx..ndx + |start|][|start| - 1];
    assert StartsWithBracket(rest);
    BalancedSpanShape(v, rest);
    match BalancedSpan(v, rest)
    case Err(e) =>
    case Ok(span) =>
      assert HelperObject(v, name, rest) == Ok("var " + name + "=" + span);
  }

  /** The routine source starts with `var NAME=function(a)` and continues with the balanced span right after the first `NAME=function(a)`. */
  lemma FunctionSourceMeaning(v: Variant, body: string, name: string)
    ensures FunctionSource(v, body, name) == Ok(None) <==> !Includes(body, FunctionStart(name))
    ensures FunctionSource(v, body, name).Err? ==> FunctionSource(v, body, name).error.CutFailed?
    ensures Includes(body, FunctionStart(name)) && FunctionSource(v, body, name).Ok? ==>
      var start := FunctionStart(name);
      var rest := body[IndexOf(body, start, 0).value + |start|..];
      && BalancedSpan(v, rest).Ok?
      && var span := BalancedSpan(v, rest).value;
      && FunctionSource(v, body, name) == Ok(Some("var " + start + span))
      && StartsWithBracket(span) && 2 <= |span| <= |rest| && span == rest[..|span|]
      && span[|span| - 1] == Closing(span[0])
  {
    var start := FunctionStart(name);
    match IndexOf(body, start, 0)
    case None =>
    case Some(ndx) =>
      RoutineAtMeaning(v, start, body[ndx + |start|..]);
  }

  lemma RoutineAtMeaning(v: Variant, start: string, rest: string)
    ensures RoutineAt(v, start, rest) != Ok(None)
    ensures RoutineAt(v, start, rest).Err? ==> RoutineAt(v, start, rest).error.CutFailed?
    ensures RoutineAt(v, start, rest).Ok? ==>
      && BalancedSpan(v, rest).Ok?
      && var span := BalancedSpan(v, rest).value;
      && RoutineAt(v, start, rest) == Ok(Some("var " + start + span))
      && StartsWithBracket(span) && 2 <= |span| <= |rest| && span == rest[..|span|]
      && span[|span| - 1] == Closing(span[0])
  {
    BalancedSpanShape(v, rest);
    if BalancedSpan(v, rest).Ok? {
      var span := BalancedSpan(v, rest).value;
      assert span[0] == rest[0];
    }
  }

  /**
   * The decipher unit is pushed only when the name is non-empty and
   * `NAME=function(a)` occurs; it is the helper object, the routine and the
   * call on `sig`.
   */
  lemma DecipherUnitMeaning(v: Variant, body: string, name: string)
    ensures name == "" || !Includes(body, FunctionStart(name)) ==> DecipherUnit(v, body, name) == Ok(None)
    ensures name != "" && Includes(body, FunctionStart(name)) ==> DecipherUnit(v, body, name) != Ok(None)
    ensures DecipherUnit(v, body, name).Ok? && DecipherUnit(v, body, name).value.Some? ==>
      && FunctionSource(v, body, name).Ok? && FunctionSource(v, body, name).value.Some?
      && var source := FunctionSource(v, body, name).value.value;
      && Manipulations(v, source, body).Ok?
      && DecipherUnit(v, body, name).value.value == Manipulations(v, source, body).value + ";" + source + ";" + name + "(sig);"
  {
    FunctionSourceMeaning(v, body, name);
  }

  /** The decipher unit ends with the call on `sig`. */
  lemma DecipherUnitCall(v: Variant, body: string, name: string)
    requires DecipherUnit(v, body, name).Ok? && DecipherUnit(v, body, name).value.Some?
    ensures EndsWith(DecipherUnit(v, body, name).value.value, name + "(sig);")
  {
    DecipherUnitMeaning(v, body, name);
    var source := FunctionSource(v, body, name).value.value;
    EndsWithTail(Manipulations(v, source, body).value + ";" + source + ";", name, "(sig);");
  }

  lemma EndsWithTail(p: string, a: string, b: string)
    ensures EndsWith(p + a + b, a + b)
  {
    assert p + a + b == p + (a + b);
  }

  /** The n-code unit is pushed only when the name is non-empty and `NAME=function(a)` occurs; it is the routine and the call on `ncode`. */
  lemma NCodeUnitMeaning(v: Variant, body: string, name: string)
    ensures name == "" || !Includes(body, FunctionStart(name)) ==> NCodeUnit(v, body, name) == Ok(None)
    ensures name != "" && Includes(body, FunctionStart(name)) ==> NCodeUnit(v, body, name) != Ok(None)
    ensures NCodeUnit(v, body, name).Ok? && NCodeUnit(v, body, name).value.Some? ==>
      && FunctionSource(v, body, name).Ok? && FunctionSource(v, body, name).value.Some?
      && NCodeUnit(v, body, name).value.value == FunctionSource(v, body, name).value.value + ";" + name + "(ncode);"
  {
    FunctionSourceMeaning(v, body, name);
  }

  /** The n-code unit ends with the call on `ncode`. */
  lemma NCodeUnitCall(v: Variant, body: string, name: string)
    requires NCodeUnit(v, body, name).Ok? && NCodeUnit(v, body, name).value.Some?
    ensures EndsWith(NCodeUnit(v, body, name).value.value, name + "(ncode);")
  {
    NCodeUnitMeaning(v, body, name);
    EndsWithTail(FunctionSource(v, body, name).value.value + ";", name, "(ncode);");
  }

  /** A name without `[` is used as it is; `BASE[…]` is replaced by the text between `BASE=[` and the next `]`. */
  lemma ResolveNCodeNameMeaning(body: string, name: string)
    ensures '[' !in name ==> ResolveNCodeName(body, name) == Ok(name)
    ensures '[' in name ==>
      var sep := SplitHead(name, "[") + "=[";
      && (ResolveNCodeName(body, name).Err? <==> !Includes(body, sep))
      && (ResolveNCodeName(body, name).Ok? ==>
            ElementAt(body, sep, IndexOf(body, sep, 0).value + |sep|, ResolveNCodeName(body, name).value))
  {
    if '[' in name {
      ElementBetween(body, SplitHead(name, "[") + "=[");
    }
  }

  /**
   * `element` sits in `body` at `k`: it holds no `]`, no `sep` starts inside it,
   * and it stops at the end of `body`, at the next `sep` or at a `]`.
   */
  predicate ElementAt(body: string, sep: string, k: int, element: string) {
    && 0 <= k && k + |element| <= |body| && body[k..k + |element|] == element
    && ']' !in element
    && (forall j :: k <= j < k + |element| ==> !OccursAt(body, sep, j))
    && (k + |element| == |body| || OccursAt(body, sep, k + |element|) || body[k + |element|] == ']')
  }

  lemma ElementBetween(body: string, sep: string)
    requires |sep| > 0
    ensures NameBetween(body, sep, "]").Err? <==> !Includes(body, sep)
    ensures NameBetween(body, sep, "]").Ok? ==>
      ElementAt(body, sep, IndexOf(body, sep, 0).value + |sep|, NameBetween(body, sep, "]").value)
  {
    NameBetweenMeaning(body, sep, "]");
    if NameBetween(body, sep, "]").Ok? {
      ElementStop(body, sep, IndexOf(body, sep, 0).value + |sep|, NameBetween(body, sep, "]").value);
    }
  }

  /** A name cut at the next `]` holds no `]`, and the character after it, if any and not `sep`, is `]`. */
  lemma ElementStop(body: string, sep: string, k: int, element: string)
    requires NameAt(body, sep, "]", k, element)
    ensures ElementAt(body, sep, k, element)
  {
    NoClosingBracket(element);
    var i := k + |element|;
    if i != |body| && !OccursAt(body, sep, i) {
      assert body[i..i + 1][0] == body[i];
    }
  }

  /** A text in which `]` occurs at no index holds no `]`. */
  lemma NoClosingBracket(element: string)
    requires forall j :: 0 <= j < |element| ==> !OccursAt(element, "]", j)
    ensures ']' !in element
  {
    forall j | 0 <= j < |element| ensures element[j] != ']' {
      assert !OccursAt(element, "]", j);
    }
  }

  /** At most two units, each ending with `(sig);` or `(ncode);`, a decipher unit before an n-code unit. */
  predicate UnitsInOrder(units: seq<string>) {
    && |units| <= 2
    && (forall k :: 0 <= k < |units| ==> EndsWith(units[k], "(sig);") || EndsWith(units[k], "(ncode);"))
    && (forall j, k :: 0 <= j < k < |units| ==> EndsWith(units[j], "(sig);") && EndsWith(units[k], "(ncode);"))
  }

  lemma UnitsFromParts(v: Variant, body: string, decipherName: string, resolved: string)
    requires DecipherUnit(v, body, decipherName).Ok? && NCodeUnit(v, body, resolved).Ok?
    ensures UnitsInOrder(OptionToSeq(DecipherUnit(v, body, decipherName).value) + OptionToSeq(NCodeUnit(v, body, resolved).value))
  {
    var decipher := DecipherUnit(v, body, decipherName).value;
    var ncode := NCodeUnit(v, body, resolved).value;
    if decipher.Some? {
      DecipherUnitCall(v, body, decipherName);
      SuffixOfSuffix(decipher.value, decipherName, "(sig);");
    }
    if ncode.Some? {
      NCodeUnitCall(v, body, resolved);
      SuffixOfSuffix(ncode.value, resolved, "(ncode);");
    }
    OptionalUnitsInOrder(decipher, ncode);
  }

  /** An optional decipher unit followed by an optional n-code unit is in order. */
  lemma OptionalUnitsInOrder(decipher: Option<string>, ncode: Option<string>)
    requires decipher.Some? ==> EndsWith(decipher.value, "(sig);")
    requires ncode.Some? ==> EndsWith(ncode.value, "(ncode);")
    ensures UnitsInOrder(OptionToSeq(decipher) + OptionToSeq(ncode))
  {
  }

  /** The units of a successful extraction: both anchors occur, and the units are in order. */
  lemma ExtractedUnits(v: Variant, body: string)
    requires Extract(v, body).Extracted?
    ensures Includes(body, DecipherAnchor) && Includes(body, NCodeAnchor)
    ensures UnitsInOrder(Extract(v, body).units)
  {
    NameBetweenMeaning(body, DecipherAnchor, DecipherEnd);
    NameBetweenMeaning(body, NCodeAnchor, NCodeEnd);
    var decipherName := NameBetween(body, DecipherAnchor, DecipherEnd).value;
    var ncodeName := NameBetween(body, NCodeAnchor, NCodeEnd).value;
    var resolved := ResolveNCodeName(body, ncodeName).value;
    UnitsFromParts(v, body, decipherName, resolved);
  }

  lemma SuffixOfSuffix(s: string, a: string, b: string)
    requires EndsWith(s, a + b)
    ensures EndsWith(s, b)
  {
    assert s[|s| - |b|..] == (a + b)[|a|..];
  }

  /** One copy always settles; the other never settles on an empty body or when neither routine is found. */
  lemma Settling(v: Variant, body: string)
    ensures v == Platforms ==> !Extract(v, body).Unsettled?
    ensures v == Structures ==> (Extract(v, body).Unsettled? <==> body == "" || Units(v, body) == Ok([]))
  {
  }

  /** A missing anchor throws for the whole extraction rather than only for its routine. */
  lemma MissingAnchorThrows(v: Variant, body: string)
    requires body != "" || v == Platforms
    ensures !Includes(body, DecipherAnchor) ==> Extract(v, body) == Threw(MissingPiece(DecipherAnchor))
    ensures !Includes(body, NCodeAnchor) ==> Extract(v, body).Threw?
    ensures v == Structures && Includes(body, DecipherAnchor) && !Includes(body, NCodeAnchor) ==>
      Extract(v, body) == Threw(MissingPiece(NCodeAnchor))
  {
    NameBetweenMeaning(body, DecipherAnchor, DecipherEnd);
    NameBetweenMeaning(body, NCodeAnchor, NCodeEnd);
  }

  /**
   * `extractManipulations(caller, body)`, as the program runs it. The function
   * `Manipulations` is its specification; this method exists beside it because
   * it calls the scanner's loop method `CutAfterJS`, which no function can call.
   */
  method ExtractManipulations(v: Variant, caller: string, body: string) returns (r: Result<string, ExtractError>)
    ensures r == Manipulations(v, caller, body)
  {
    var piece := SplitSecond(caller, HelperAnchor);
    if piece.None? {
      return Err(MissingPiece(HelperAnchor));
    }
    var functionName := SplitHead(piece.value, ".");
    if functionName == "" {
      return Ok("");
    }
    var functionStart := "var " + functionName + "={";
    var ndx := IndexOf(body, functionStart, 0);
    if ndx.None? {
      return Ok("");
    }
    var span := CutAfterJS(v, body[ndx.value + |functionStart| - 1..]);
    if span.Err? {
      return Err(CutFailed(span.error));
    }
    return Ok("var " + functionName + "=" + span.value);
  }

  /**
   * The routine `NAME=function(a)…` with `var` in front, if `body` defines it.
   * Specified by `FunctionSource`; a method because it runs the loop method `CutAfterJS`.
   */
  method CutFunction(v: Variant, body: string, name: string) returns (r: Result<Option<string>, ExtractError>)
    ensures r == FunctionSource(v, body, name)
  {
    var functionStart := FunctionStart(name);
    var ndx := IndexOf(body, functionStart, 0);
    if ndx.None? {
      return Ok(None);
    }
    var span := CutAfterJS(v, body[ndx.value + |functionStart|..]);
    if span.Err? {
      return Err(CutFailed(span.error));
    }
    return Ok(Some("var " + functionStart + span.value));
  }

  /**
   * The decipher part of `extractFunctions`: push the unit when `NAME=function(a)` is found.
   * Specified by `DecipherUnit`; a method because `CutFunction` and
   * `ExtractManipulations` are.
   */
  method ExtractDecipher(v: Variant, body: string, name: string) returns (r: Result<Option<string>, ExtractError>)
    ensures r == DecipherUnit(v, body, name)
  {
    if name == "" {
      return Ok(None);
    }
    var functionBody := CutFunction(v, body, name);
    if functionBody.Err? {
      return Err(functionBody.error);
    }
    if functionBody.value.None? {
      return Ok(None);
    }
    var manipulations := ExtractManipulations(v, functionBody.value.value, body);
    if manipulations.Err? {
      return Err(manipulations.error);
    }
    return Ok(Some(manipulations.value + ";" + functionBody.value.value + ";" + name + "(sig);"));
  }

  /**
   * The n-code part of `extractFunctions`, from the name between the anchors on.
   * Specified by `NCodePart`; a method because `CutFunction` is.
   */
  method ExtractNCode(v: Variant, body: string, name: string) returns (r: Result<Option<string>, ExtractError>)
    ensures r == NCodePart(v, body, name)
  {
    var ncode := name;
    if '[' in ncode {
      var element := NameBetween(body, SplitHead(ncode, "[") + "=[", "]");
      if element.Err? {
        return Err(element.error);
      }
      ncode := element.value;
    }
    if ncode == "" {
      return Ok(None);
    }
    var functionBody := CutFunction(v, body, ncode);
    if functionBody.Err? {
      return Err(functionBody.error);
    }
    if functionBody.value.None? {
      return Ok(None);
    }
    return Ok(Some(functionBody.value.value + ";" + ncode + "(ncode);"));
  }

  /** `extractFunctions(body)`: collect the decipher unit, then the n-code unit, into `functions`. */
  method ExtractFunctions(v: Variant, body: string) returns (r: Extraction)
    ensures r == Extract(v, body)
  {
    if v == Platforms {
      r := ExtractInPlatforms(body);
    } else {
      r := ExtractInStructures(body);
    }
  }

  /** The copy that finishes the decipher unit before it reads the n-code name. */
  method ExtractInPlatforms(body: string) returns (r: Extraction)
    ensures r == Extract(Platforms, body)
  {
    var functions: seq<string> := [];
    var decipherName := NameBetween(body, DecipherAnchor, DecipherEnd);
    if decipherName.Err? {
      return Threw(decipherName.error);
    }
    var decipher := ExtractDecipher(Platforms, body, decipherName.value);
    if decipher.Err? {
      return Threw(decipher.error);
    }
    if decipher.value.Some? {
      functions := functions + [decipher.value.value];
    }
    assert functions == OptionToSeq(decipher.value);
    var ncodeName := NameBetween(body, NCodeAnchor, NCodeEnd);
    if ncodeName.Err? {
      return Threw(ncodeName.error);
    }
    var functions' := PushNCode(Platforms, body, ncodeName.value, functions);
    if functions'.Err? {
      return Threw(functions'.error);
    }
    return Extracted(functions'.value);
  }

  /** The copy that reads both names first and never settles on an empty body or an empty result. */
  method ExtractInStructures(body: string) returns (r: Extraction)
    ensures r == Extract(Structures, body)
  {
    if body == "" {
      return Unsettled;
    }
    var decipherName := NameBetween(body, DecipherAnchor, DecipherEnd);
    if decipherName.Err? {
      return Threw(decipherName.error);
    }
    var ncodeName := NameBetween(body, NCodeAnchor, NCodeEnd);
    if ncodeName.Err? {
      return Threw(ncodeName.error);
    }
    var functions := CollectUnits(Structures, body, decipherName.value, ncodeName.value);
    if functions.Err? {
      return Threw(functions.error);
    }
    if functions.value == [] {
      return Unsettled;
    }
    return Extracted(functions.value);
  }

  /** Push the decipher unit, then the n-code unit, each when its routine is found. */
  method CollectUnits(v: Variant, body: string, decipherName: string, ncodeName: string) returns (r: Result<seq<string>, ExtractError>)
    ensures r == Assemble(v, body, decipherName, ncodeName)
  {
    var functions: seq<string> := [];
    var decipher := ExtractDecipher(v, body, decipherName);
    if decipher.Err? {
      return Err(decipher.error);
    }
    if decipher.value.Some? {
      functions := functions + [decipher.value.value];
    }
    assert functions == OptionToSeq(decipher.value);
    r := PushNCode(v, body, ncodeName, functions);
  }

  /** Push the n-code unit onto `functions` when its routine is found. */
  method PushNCode(v: Variant, body: string, ncodeName: string, functions: seq<string>) returns (r: Result<seq<string>, ExtractError>)
    ensures r == Append(functions, NCodePart(v, body, ncodeName))
  {
    var ncode := ExtractNCode(v, body, ncodeName);
    if ncode.Err? {
      return Err(ncode.error);
    }
    if ncode.value.None? {
      assert functions + [] == functions;
      return Ok(functions);
    }
    return Ok(functions + [ncode.value.value]);
  }
}
