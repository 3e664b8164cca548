/**
 * `parseTokens` and `replacer`, from the point where the regular expressions
 * have matched. The object grammar's four per-operation expressions give the
 * captured key names (each possibly absent) and the call-site expression
 * gives the call sites of the driver function, in textual order.
 */
module TokenParser {
  import opened Wrappers
  import opened JsText
  import opened Variants
  import opened Tokens

  /**
   * One match of the call-site expression: the key `result[1] || result[2] || result[3]`,
   * `None` when that is undefined, and the digit string `result[4]`.
   */
  datatype CallSite = CallSite(key: Option<string>, digits: string)

  /**
   * `result[1] || result[2] || result[3]` over the captures of the `.KEY`, `['KEY']`
   * and `["KEY"]` alternatives: the first of the first two that is a non-empty
   * string, and otherwise the third, which may be `""` or undefined.
   */
  function CapturedKey(dotted: Option<string>, singleQuoted: Option<string>, doubleQuoted: Option<string>): Option<string> {
    if dotted.Some? && dotted.value != "" then dotted
    else if singleQuoted.Some? && singleQuoted.value != "" then singleQuoted
    else doubleQuoted
  }

  /** What the reverse, slice, splice and swap expressions captured in the helper object, before `replacer`. */
  datatype ObjectMatch = ObjectMatch(reverse: Option<string>, slice: Option<string>, splice: Option<string>, swap: Option<string>)

  predicate IsQuote(c: char) {
    c == '\'' || c == '"'
  }

  /** `.replace(/\$/g, '\\$')`: every `$` becomes `\$`. */
  function EscapeDollars(s: string): (r: string)
    ensures '$' !in s ==> r == s
  {
    if s == [] then [] else (if s[0] == '$' then "\\$" else [s[0]]) + EscapeDollars(s[1..])
  }

  /** The global replacement `/\$|^'|^"|'$|"$/g` removes the character at `i`. */
  predicate Dropped(s: string, i: nat)
    requires i < |s|
  {
    s[i] == '$' || (i == 0 && IsQuote(s[i])) || (i == |s| - 1 && IsQuote(s[i]))
  }

  /** `s.replace(/\$|^'|^"|'$|"$/g, '')`, from index `i` on. */
  function Strip(s: string, i: nat): string
    requires i <= |s|
    decreases |s| - i
  {
    if i == |s| then [] else (if Dropped(s, i) then [] else [s[i]]) + Strip(s, i + 1)
  }

  /** `replacer(res)`: `res && res[1].replace(…).replace(…)`; absent when the expression did not match. */
  function Replacer(res: Option<string>): Option<string> {
    match res
    case None => None
    case Some(key) => Some(Strip(EscapeDollars(key), 0))
  }

  lemma {:induction false} StripKeeps(s: string, i: nat, j: nat)
    requires i <= j <= |s|
    requires forall k :: i <= k < j ==> !Dropped(s, k)
    ensures Strip(s, i) == s[i..j] + Strip(s, j)
    decreases j - i
  {
    if i < j {
      StripKeeps(s, i + 1, j);
      assert !Dropped(s, i);
      assert Strip(s, i) == [s[i]] + Strip(s, i + 1);
      assert s[i..j] == [s[i]] + s[i + 1..j];
      assert [s[i]] + (s[i + 1..j] + Strip(s, j)) == ([s[i]] + s[i + 1..j]) + Strip(s, j);
    }
  }

  /** A quoted key loses its quotes: `'ab'` and `"ab"` give `ab`. */
  lemma ReplacerUnquotes(q: char, key: string)
    requires IsQuote(q) && '$' !in key
    ensures Replacer(Some([q] + key + [q])) == Some(key)
  {
    var s := [q] + key + [q];
    QuotedWithoutDollar(q, key);
    assert EscapeDollars(s) == s;
    assert s[1..|s| - 1] == key;
    StripQuoted(s);
  }

  lemma QuotedWithoutDollar(q: char, key: string)
    requires IsQuote(q) && '$' !in key
    ensures '$' !in [q] + key + [q]
  {
    var s := [q] + key + [q];
    assert forall k :: 0 <= k < |s| ==> s[k] == q || s[k] == key[k - 1];
  }

  /** Between its two quotes a quoted text without `$` is kept. */
  lemma StripQuoted(s: string)
    requires |s| >= 2 && IsQuote(s[0]) && IsQuote(s[|s| - 1]) && '$' !in s
    ensures Strip(s, 0) == s[1..|s| - 1]
  {
    assert forall k :: 1 <= k < |s| - 1 ==> !Dropped(s, k);
    StripKeeps(s, 1, |s| - 1);
    assert Strip(s, |s| - 1) == [];
    assert s[1..|s| - 1] + [] == s[1..|s| - 1];
  }

  /** A bare identifier passes unchanged. */
  lemma ReplacerBare(key: string)
    requires '$' !in key && (key == [] || (!IsQuote(key[0]) && !IsQuote(key[|key| - 1])))
    ensures Replacer(Some(key)) == Some(key)
  {
    assert EscapeDollars(key) == key;
    StripKeeps(key, 0, |key|);
    assert key[0..|key|] == key;
    assert Strip(key, 0) == key;
    assert Replacer(Some(key)) == Some(Strip(EscapeDollars(key), 0));
  }

  /** A `$` in a key comes out as a lone backslash: `$a` gives `\a`. */
  lemma ReplacerDollar()
    ensures Replacer(Some("$a")) == Some("\\a")
  {
    assert EscapeDollars("$a") == "\\$a" by {
      assert "$a"[1..] == "a";
    }
    var s := "\\$a";
    assert Strip(s, 3) == [];
    assert Strip(s, 2) == "a";
    assert Strip(s, 1) == "a";
    assert Strip(s, 0) == "\\a";
  }

  /** `keys` after the `forEach` push: reverse, slice, splice, swap. */
  function Keys(m: ObjectMatch): (keys: seq<Option<string>>)
    ensures |keys| == 4
  {
    [Replacer(m.reverse), Replacer(m.slice), Replacer(m.splice), Replacer(m.swap)]
  }

  /** The token each operation emits: 0 reverse, 1 slice, 2 splice, 3 swap. */
  function Emit(operation: nat, digits: string): string {
    if operation == 0 then "rv" else if operation == 1 then "sl" + digits else if operation == 2 then "sp" + digits else "sw" + digits
  }

  /** The order in which the copy's `switch` compares the key with `keys[…]`. */
  function CaseOrder(v: Variant): seq<nat> {
    if v == Platforms then [3, 0, 1, 2] else [0, 1, 2, 3]
  }

  /** The first case in `order` whose key equals `key`. */
  function FirstCase(keys: seq<Option<string>>, order: seq<nat>, key: string): (r: Option<nat>)
    requires forall k :: 0 <= k < |order| ==> order[k] < |keys|
    ensures r.Some? ==> r.value in order && keys[r.value] == Some(key)
    ensures r.None? ==> forall k :: 0 <= k < |order| ==> keys[order[k]] != Some(key)
  {
    if order == [] then None
    else if keys[order[0]] == Some(key) then Some(order[0])
    else FirstCase(keys, order[1..], key)
  }

  /**
   * The token a call site yields, if any. An undefined key matches no case,
   * since every key is a string or `null`; the empty string is a key like any other.
   */
  function TokenFor(v: Variant, keys: seq<Option<string>>, site: CallSite): Option<string>
    requires |keys| == 4
  {
    match site.key
    case None => None
    case Some(key) =>
      match FirstCase(keys, CaseOrder(v), key)
      case None => None
      case Some(operation) => Some(Emit(operation, site.digits))
  }

  function OptionToSeq<T>(o: Option<T>): seq<T> {
    if o.Some? then [o.value] else []
  }

  /** The tokens of a list of call sites, in their order. */
  function Tokenize(v: Variant, keys: seq<Option<string>>, sites: seq<CallSite>): seq<string>
    requires |keys| == 4
  {
    if sites == [] then []
    else Tokenize(v, keys, sites[..|sites| - 1]) + OptionToSeq(TokenFor(v, keys, sites[|sites| - 1]))
  }

  /** `parseTokens(page)`; `funAction` holds the driver's call sites and `objAction` the helper object's captures. */
  method ParseTokens(v: Variant, funAction: Option<seq<CallSite>>, objAction: Option<ObjectMatch>) returns (tokens: Option<seq<string>>)
    ensures funAction.None? || objAction.None? ==> tokens.None?
    ensures funAction.Some? && objAction.Some? ==> tokens == Some(Tokenize(v, Keys(objAction.value), funAction.value))
  {
    if funAction.None? || objAction.None? {
      return None;
    }
    var m := objAction.value;
    var keys: seq<Option<string>> := [];
    var captures := [m.reverse, m.slice, m.splice, m.swap];
    for k := 0 to 4
      invariant |keys| == k && forall j :: 0 <= j < k ==> keys[j] == Replacer(captures[j])
    {
      keys := keys + [Replacer(captures[k])];
    }
    assert keys == Keys(m);

    var sites := funAction.value;
    var result: seq<string> := [];
    for i := 0 to |sites|
      invariant result == Tokenize(v, keys, sites[..i])
    {
      assert sites[..i + 1][..i] == sites[..i];
      var token := SiteToken(v, keys, sites[i]);
      result := result + token;
    }
    assert sites[..|sites|] == sites;
    return Some(result);
  }

  /** One pass of the `forEach` over the call sites: the `switch` on the call's key. */
  method SiteToken(v: Variant, keys: seq<Option<string>>, site: CallSite) returns (token: seq<string>)
    requires |keys| == 4
    ensures token == OptionToSeq(TokenFor(v, keys, site))
  {
    token := [];
    if site.key.None? {
      // `result[1] || result[2] || result[3]` is undefined: no case matches.
      return;
    }
    var key := site.key.value;
    FirstCaseUnfolded(v, keys, key);
    if v == Platforms {
      if keys[3] == Some(key) {
        token := ["sw" + site.digits];
      } else if keys[0] == Some(key) {
        token := ["rv"];
      } else if keys[1] == Some(key) {
        token := ["sl" + site.digits];
      } else if keys[2] == Some(key) {
        token := ["sp" + site.digits];
      }
    } else {
      if keys[0] == Some(key) {
        token := ["rv"];
      } else if keys[1] == Some(key) {
        token := ["sl" + site.digits];
      } else if keys[2] == Some(key) {
        token := ["sp" + site.digits];
      } else if keys[3] == Some(key) {
        token := ["sw" + site.digits];
      }
    }
  }

  // Properties of the emitted tokens.

  /** A call site whose key is one of the operation keys. */
  predicate Recognised(keys: seq<Option<string>>, site: CallSite) {
    site.key.Some? && site.key in keys
  }

  /** Tokens of concatenated call-site lists are concatenated: the order of the call sites is kept. */
  lemma {:induction false} TokenizeAppend(v: Variant, keys: seq<Option<string>>, a: seq<CallSite>, b: seq<CallSite>)
    requires |keys| == 4
    ensures Tokenize(v, keys, a + b) == Tokenize(v, keys, a) + Tokenize(v, keys, b)
    decreases |b|
  {
    if b == [] {
      assert a + b == a;
    } else {
      var b' := b[..|b| - 1];
      assert (a + b)[..|a + b| - 1] == a + b';
      assert (a + b)[|a + b| - 1] == b[|b| - 1];
      TokenizeAppend(v, keys, a, b');
    }
  }

  /** Exactly one token per recognised call site, in textual order. */
  lemma {:induction false} OneTokenPerSite(v: Variant, keys: seq<Option<string>>, sites: seq<CallSite>)
    requires |keys| == 4
    requires forall i :: 0 <= i < |sites| ==> Recognised(keys, sites[i])
    ensures |Tokenize(v, keys, sites)| == |sites|
    ensures forall i :: 0 <= i < |sites| ==> Some(Tokenize(v, keys, sites)[i]) == TokenFor(v, keys, sites[i])
  {
    if sites != [] {
      var init, last := sites[..|sites| - 1], sites[|sites| - 1];
      assert forall i :: 0 <= i < |init| ==> init[i] == sites[i];
      OneTokenPerSite(v, keys, init);
      RecognisedSiteEmits(v, keys, last);
      var tokens, before := Tokenize(v, keys, sites), Tokenize(v, keys, init);
      TokenizeLast(v, keys, sites);
      assert tokens == before + [TokenFor(v, keys, last).value];
      forall i | 0 <= i < |sites|
        ensures Some(tokens[i]) == TokenFor(v, keys, sites[i])
      {
        if i < |init| {
          assert tokens[i] == before[i];
        }
      }
    }
  }

  lemma TokenizeLast(v: Variant, keys: seq<Option<string>>, sites: seq<CallSite>)
    requires |keys| == 4 && sites != []
    ensures Tokenize(v, keys, sites) == Tokenize(v, keys, sites[..|sites| - 1]) + OptionToSeq(TokenFor(v, keys, sites[|sites| - 1]))
  {
  }

  /** A recognised call site yields a token. */
  lemma RecognisedSiteEmits(v: Variant, keys: seq<Option<string>>, site: CallSite)
    requires |keys| == 4 && Recognised(keys, site)
    ensures TokenFor(v, keys, site).Some?
  {
    FirstCaseUnfolded(v, keys, site.key.value);
    assert keys == [keys[0], keys[1], keys[2], keys[3]];
  }

  /** Unrecognised call sites yield nothing. */
  lemma UnrecognisedSiteSkipped(v: Variant, keys: seq<Option<string>>, site: CallSite)
    requires |keys| == 4 && !Recognised(keys, site)
    ensures TokenFor(v, keys, site).None?
  {
    if site.key.Some? {
      assert forall i :: 0 <= i < |keys| ==> keys[i] != site.key;
    }
  }

  /** The case order written out: what `FirstCase` picks for each copy. */
  lemma FirstCaseUnfolded(v: Variant, keys: seq<Option<string>>, key: string)
    requires |keys| == 4
    ensures v == Platforms ==> (FirstCase(keys, CaseOrder(v), key) ==
      if keys[3] == Some(key) then Some(3) else if keys[0] == Some(key) then Some(0)
       else if keys[1] == Some(key) then Some(1) else if keys[2] == Some(key) then Some(2) else None)
    ensures v == Structures ==> (FirstCase(keys, CaseOrder(v), key) ==
      if keys[0] == Some(key) then Some(0) else if keys[1] == Some(key) then Some(1)
       else if keys[2] == Some(key) then Some(2) else if keys[3] == Some(key) then Some(3) else None)
  {
    var order := CaseOrder(v);
    var o1, o2, o3 := order[1..], order[2..], order[3..];
    assert o1[1..] == o2 && o2[1..] == o3 && o3[1..] == [];
    assert FirstCase(keys, o3, key) == if keys[order[3]] == Some(key) then Some(order[3]) else None;
    assert FirstCase(keys, o2, key) == if keys[order[2]] == Some(key) then Some(order[2]) else FirstCase(keys, o3, key);
    assert FirstCase(keys, o1, key) == if keys[order[1]] == Some(key) then Some(order[1]) else FirstCase(keys, o2, key);
  }

  /**
   * A numeric token is its tag followed by the matched digits, so
   * `parseInt(token.slice(2))` gives back the call's argument.
   */
  lemma TokenArgument(v: Variant, keys: seq<Option<string>>, site: CallSite)
    requires |keys| == 4 && |site.digits| > 0 && IsDigits(site.digits)
    requires TokenFor(v, keys, site).Some?
    ensures var t := TokenFor(v, keys, site).value;
      && WellFormedToken(t)
      && (t == "rv" || (NumericTag(Tag(t)) && t[2..] == site.digits))
      && (var op := Classify(t);
          || op == Reverse
          || op == SliceFrom(DigitsValue(site.digits))
          || op == SpliceDropPrefix(DigitsValue(site.digits))
          || op == SwapWithFirst(DigitsValue(site.digits)))
  {
    var t := TokenFor(v, keys, site).value;
    if t != "rv" {
      assert t[..2] == Tag(t) && t[2..] == site.digits;
    }
  }

  /** Which operation a recognised key selects: the case order of each copy. */
  lemma CasePriority(v: Variant, keys: seq<Option<string>>, site: CallSite)
    requires |keys| == 4 && site.key.Some?
    ensures v == Platforms && keys[3] == site.key ==> TokenFor(v, keys, site) == Some("sw" + site.digits)
    ensures v == Structures && keys[0] == site.key ==> TokenFor(v, keys, site) == Some("rv")
    ensures v == Platforms && keys[3] != site.key && keys[0] == site.key ==> TokenFor(v, keys, site) == Some("rv")
    ensures v == Structures && site.key == keys[3] && site.key !in keys[..3]
      ==> TokenFor(v, keys, site) == Some("sw" + site.digits)
  {
    FirstCaseUnfolded(v, keys, site.key.value);
  }

  /** When the reverse and swap keys coincide, the two copies disagree: `sw` in one, `rv` in the other. */
  lemma CoincidingKeys(keys: seq<Option<string>>, site: CallSite)
    requires |keys| == 4 && site.key.Some? && keys[0] == keys[3] == site.key
    ensures TokenFor(Platforms, keys, site) == Some("sw" + site.digits)
    ensures TokenFor(Structures, keys, site) == Some("rv")
  {
    CasePriority(Platforms, keys, site);
    CasePriority(Structures, keys, site);
  }

  /** Every token emitted from digit-string call sites is well formed, so `DecodeSignature` can read it. */
  lemma {:induction false} TokensWellFormed(v: Variant, keys: seq<Option<string>>, sites: seq<CallSite>)
    requires |keys| == 4
    requires forall i :: 0 <= i < |sites| ==> |sites[i].digits| > 0 && IsDigits(sites[i].digits)
    ensures forall t :: t in Tokenize(v, keys, sites) ==> WellFormedToken(t)
  {
    if sites != [] {
      TokensWellFormed(v, keys, sites[..|sites| - 1]);
      var last := sites[|sites| - 1];
      if TokenFor(v, keys, last).Some? {
        TokenArgument(v, keys, last);
      }
    }
  }

  /**
   * A helper object with `rv` reversing and `sl` slicing, called as
   * `a=Zz.rv(a,1);a=Zz.sl(a,2);`: the tokens are `rv`, `sl2`, and they turn
   * "abcdef" into "dcba".
   */
  lemma ReverseThenSliceObject(v: Variant)
    ensures var keys := Keys(ObjectMatch(Some("rv"), Some("sl"), None, None));
      var sites := [CallSite(Some("rv"), "1"), CallSite(Some("sl"), "2")];
      && Tokenize(v, keys, sites) == ["rv", "sl2"]
      && Decodable(Tokenize(v, keys, sites), "abcdef")
      && Decode(Tokenize(v, keys, sites), "abcdef") == "dcba"
  {
    var keys := ExampleKeys();
    ExampleTokens(v, keys, [CallSite(Some("rv"), "1"), CallSite(Some("sl"), "2")]);
    ReverseThenSlice();
  }

  lemma ExampleKeys() returns (keys: seq<Option<string>>)
    ensures keys == Keys(ObjectMatch(Some("rv"), Some("sl"), None, None))
    ensures keys == [Some("rv"), Some("sl"), None, None]
  {
    ReplacerBare("rv");
    ReplacerBare("sl");
    keys := [Some("rv"), Some("sl"), None, None];
  }

  lemma ExampleTokens(v: Variant, keys: seq<Option<string>>, sites: seq<CallSite>)
    requires keys == [Some("rv"), Some("sl"), None, None]
    requires sites == [CallSite(Some("rv"), "1"), CallSite(Some("sl"), "2")]
    ensures Tokenize(v, keys, sites) == ["rv", "sl2"]
  {
    ExampleSite(v, keys, sites[0], 0, "rv");
    ExampleSite(v, keys, sites[1], 1, "sl2");
    var first := sites[..1];
    assert first[..0] == [];
    assert Tokenize(v, keys, first) == ["rv"];
    assert sites[..1] == first;
  }

  /** With only the reverse and slice keys set, each example call site picks its own case in either copy. */
  lemma ExampleSite(v: Variant, keys: seq<Option<string>>, site: CallSite, operation: nat, token: string)
    requires keys == [Some("rv"), Some("sl"), None, None]
    requires (site, operation, token) == (CallSite(Some("rv"), "1"), 0, "rv") || (site, operation, token) == (CallSite(Some("sl"), "2"), 1, "sl2")
    ensures TokenFor(v, keys, site) == Some(token)
  {
    FirstCaseUnfolded(v, keys, site.key.value);
    assert FirstCase(keys, CaseOrder(v), site.key.value) == Some(operation);
    assert Emit(operation, site.digits) == token;
  }

  /**
   * A helper object whose reverse key is the empty string, `var Zz={"":function(a){a.reverse()}};`,
   * called as `a=Zz[""](a,1);`: `replacer` turns the captured `""` into the empty
   * key, the `["KEY"]` alternative captures the empty key, and the `===` of the
   * `switch` matches it, so the call reverses in either copy.
   */
  lemma EmptyKeyReverses(v: Variant)
    ensures var keys := Keys(ObjectMatch(Some("\"\""), None, None, None));
      var site := CallSite(CapturedKey(None, None, Some("")), "1");
      && keys[0] == Some("")
      && Tokenize(v, keys, [site]) == ["rv"]
  {
    ReplacerUnquotes('"', "");
    assert "\"\"" == ['"'] + "" + ['"'];
    var keys := [Some(""), None, None, None];
    var site := CallSite(Some(""), "1");
    FirstCaseUnfolded(v, keys, "");
    assert TokenFor(v, keys, site) == Some("rv");
    assert [site][..0] == [];
  }

  /**
   * An empty capture of an alternative other than the last makes the key
   * undefined (`"" || undefined || undefined`), and such a call site emits nothing.
   */
  lemma EmptyEarlierCaptureUndefined(v: Variant, keys: seq<Option<string>>, digits: string)
    requires |keys| == 4
    ensures CapturedKey(Some(""), None, None) == None
    ensures CapturedKey(None, Some(""), None) == None
    ensures TokenFor(v, keys, CallSite(CapturedKey(Some(""), None, None), digits)) == None
  {
  }
}
