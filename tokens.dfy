/**
 * The token decoder of the fallback path: `DecodeSignature` applies a list of
 * operation tokens ("rv", "slN", "spN", "swN") to the characters of a
 * signature, with `swapPositions` exchanging two entries of the array in place.
 */
module Tokens {
  import opened JsText

  /** What a token means, read off its first two characters. */
  datatype Op = Reverse | SliceFrom(n: nat) | SpliceDropPrefix(n: nat) | SwapWithFirst(n: nat) | Ignored

  /** `token.slice(0, 2)` */
  function Tag(token: string): string {
    if |token| <= 2 then token else token[..2]
  }

  /** The tags whose token carries a number after the tag. */
  predicate NumericTag(tag: string) {
    tag == "sw" || tag == "sl" || tag == "sp"
  }

  /** A numeric token's argument is a non-empty digit string, as `parseTokens` emits them. */
  predicate WellFormedToken(token: string) {
    NumericTag(Tag(token)) ==> |token| > 2 && IsDigits(token[2..])
  }

  /** The `switch (token.slice(0, 2))` of `DecodeSignature`, with `parseInt(token.slice(2))` as the argument. */
  function Classify(token: string): Op
    requires WellFormedToken(token)
  {
    var tag := Tag(token);
    if tag == "sw" then SwapWithFirst(DigitsValue(token[2..]))
    else if tag == "sl" then SliceFrom(DigitsValue(token[2..]))
    else if tag == "sp" then SpliceDropPrefix(DigitsValue(token[2..]))
    else if tag == "rv" then Reverse
    else Ignored
  }

  function Reversed<T>(s: seq<T>): (r: seq<T>)
    ensures |r| == |s|
  {
    if s == [] then [] else Reversed(s[1..]) + [s[0]]
  }

  lemma {:induction false} ReversedAt<T>(s: seq<T>, k: nat)
    requires k < |s|
    ensures Reversed(s)[k] == s[|s| - 1 - k]
  {
    if k < |s| - 1 {
      ReversedAt(s[1..], k);
    }
  }

  /** `array.slice(n)` and `array.splice(0, n)` both leave the elements from index n on. */
  function DropPrefix<T>(s: seq<T>, n: nat): (r: seq<T>)
    ensures |r| == if n < |s| then |s| - n else 0
    ensures forall k :: 0 <= k < |r| ==> r[k] == s[n + k]
  {
    if n < |s| then s[n..] else []
  }

  /** `swapPositions(array, n)`: entries 0 and n exchanged. */
  function Swapped<T>(s: seq<T>, n: nat): (r: seq<T>)
    requires n < |s|
    ensures |r| == |s| && r[0] == s[n] && r[n] == s[0]
    ensures forall k :: 0 <= k < |s| && k != 0 && k != n ==> r[k] == s[k]
  {
    s[0 := s[n]][n := s[0]]
  }

  /** A swap never reaches past the end (the source would grow a sparse array). */
  predicate Applicable(op: Op, sig: seq<char>) {
    op.SwapWithFirst? ==> op.n < |sig|
  }

  function ApplyOp(op: Op, sig: seq<char>): seq<char>
    requires Applicable(op, sig)
  {
    match op
    case Reverse => Reversed(sig)
    case SliceFrom(n) => DropPrefix(sig, n)
    case SpliceDropPrefix(n) => DropPrefix(sig, n)
    case SwapWithFirst(n) => Swapped(sig, n)
    case Ignored => sig
  }

  /** Every token is well formed and every swap stays inside the signature at the point it is applied. */
  predicate Decodable(tokens: seq<string>, sig: seq<char>) {
    tokens == [] ||
    (WellFormedToken(tokens[0]) && Applicable(Classify(tokens[0]), sig)
     && Decodable(tokens[1..], ApplyOp(Classify(tokens[0]), sig)))
  }

  /** The tokens applied one after another, first token first. */
  function Decode(tokens: seq<string>, sig: seq<char>): seq<char>
    requires Decodable(tokens, sig)
  {
    if tokens == [] then sig else Decode(tokens[1..], ApplyOp(Classify(tokens[0]), sig))
  }

  /** `swapPositions`: the array writes of the source, in place. */
  method SwapPositions(a: array<char>, position: nat)
    requires position < a.Length
    modifies a
    ensures a[..] == Swapped(old(a[..]), position)
  {
    var first := a[0];
    a[0] := a[position];
    a[position] := first;
  }

  /** `array.reverse()`, in place. */
  method ReverseInPlace(a: array<char>)
    modifies a
    ensures a[..] == Reversed(old(a[..]))
  {
    var was := a[..];
    forall k | 0 <= k < a.Length {
      a[k] := was[a.Length - 1 - k];
    }
    forall k | 0 <= k < a.Length ensures a[..][k] == Reversed(was)[k] {
      ReversedAt(was, k);
    }
  }

  /** A fresh array holding `array.slice(position)`. */
  method SliceArray(a: array<char>, position: nat) returns (r: array<char>)
    ensures fresh(r) && r[..] == DropPrefix(a[..], position)
  {
    var n := if position < a.Length then a.Length - position else 0;
    r := new char[n](k requires 0 <= k < n reads a => a[position + k]);
  }

  /** `DecodeSignature(tokens, signature)` */
  method DecodeSignature(tokens: seq<string>, signature: string) returns (r: string)
    requires Decodable(tokens, signature)
    ensures r == Decode(tokens, signature)
  {
    var sig := new char[|signature|](k requires 0 <= k < |signature| => signature[k]);
    assert sig[..] == signature;
    for t := 0 to |tokens|
      invariant fresh(sig)
      invariant Decodable(tokens[t..], sig[..])
      invariant Decode(tokens, signature) == Decode(tokens[t..], sig[..])
    {
      var token := tokens[t];
      assert tokens[t..][1..] == tokens[t + 1..];
      var nameToken := if |token| >= 2 then token[2..] else "";
      var tag := Tag(token);
      if tag == "sw" {
        var position := DigitsValue(nameToken);
        SwapPositions(sig, position);
      } else if tag == "sl" {
        var position := DigitsValue(nameToken);
        sig := SliceArray(sig, position);
      } else if tag == "sp" {
        // `sig.splice(0, position)` shortens the array in place; an array here
        // has a fixed length, so the remaining entries move to a new one.
        var position := DigitsValue(nameToken);
        sig := SliceArray(sig, position);
      } else if tag == "rv" {
        ReverseInPlace(sig);
      }
    }
    r := sig[..];
  }

  // Properties of the operations and of their composition.

  /** `swN` twice is the identity. */
  lemma SwapTwice(s: seq<char>, n: nat)
    requires n < |s|
    ensures Swapped(Swapped(s, n), n) == s
  {
  }

  /** `rv` twice is the identity. */
  lemma {:induction false} ReverseTwice<T>(s: seq<T>)
    ensures Reversed(Reversed(s)) == s
  {
    forall k | 0 <= k < |s| ensures Reversed(Reversed(s))[k] == s[k] {
      ReversedAt(Reversed(s), k);
      ReversedAt(s, |s| - 1 - k);
    }
  }

  /** `sl0` (and `sp0`) change nothing. */
  lemma SliceZero(s: seq<char>)
    ensures ApplyOp(SliceFrom(0), s) == s && ApplyOp(SpliceDropPrefix(0), s) == s
  {
  }

  /** `rv` and `swN` keep the length; `slN` and `spN` shorten by min(N, length). */
  lemma OpLength(op: Op, s: seq<char>)
    requires Applicable(op, s)
    ensures op.Reverse? || op.SwapWithFirst? || op.Ignored? ==> |ApplyOp(op, s)| == |s|
    ensures op.SliceFrom? || op.SpliceDropPrefix? ==> |ApplyOp(op, s)| == |s| - (if op.n < |s| then op.n else |s|)
  {
  }

  /** Reversing and swapping only rearrange the characters. */
  lemma {:induction false} ReversedPermutes<T>(s: seq<T>)
    ensures multiset(Reversed(s)) == multiset(s)
  {
    if s != [] {
      ReversedPermutes(s[1..]);
      assert s == [s[0]] + s[1..];
    }
  }

  lemma SwappedPermutes(s: seq<char>, n: nat)
    requires n < |s|
    ensures multiset(Swapped(s, n)) == multiset(s)
  {
    if n != 0 {
      var t := s[0 := s[n]];
      assert multiset(t) == multiset(s) - multiset{s[0]} + multiset{s[n]};
    }
  }

  /** A token with any other two-letter tag leaves the signature as it is. */
  lemma UnknownTagIgnored(token: string, s: seq<char>)
    requires !NumericTag(Tag(token)) && Tag(token) != "rv"
    ensures Decodable([token], s) && Decode([token], s) == s
  {
  }

  /** Tokens are applied strictly in list order: decoding a concatenation decodes the parts in turn. */
  lemma {:induction false} DecodeAppend(t1: seq<string>, t2: seq<string>, s: seq<char>)
    requires Decodable(t1, s)
    requires Decodable(t2, Decode(t1, s))
    ensures Decodable(t1 + t2, s)
    ensures Decode(t1 + t2, s) == Decode(t2, Decode(t1, s))
  {
    if t1 != [] {
      assert (t1 + t2)[1..] == t1[1..] + t2;
      DecodeAppend(t1[1..], t2, ApplyOp(Classify(t1[0]), s));
    } else {
      assert t1 + t2 == t2;
    }
  }

  /** Without `sl`/`sp` tokens, decoding is a permutation of the signature. */
  lemma {:induction false} DecodePermutes(tokens: seq<string>, s: seq<char>)
    requires Decodable(tokens, s)
    requires forall k :: 0 <= k < |tokens| ==> Tag(tokens[k]) != "sl" && Tag(tokens[k]) != "sp"
    ensures multiset(Decode(tokens, s)) == multiset(s)
  {
    if tokens != [] {
      var op := Classify(tokens[0]);
      match op {
        case Reverse => ReversedPermutes(s);
        case SwapWithFirst(n) => SwappedPermutes(s, n);
        case Ignored =>
        case SliceFrom(n) => assert false;
        case SpliceDropPrefix(n) => assert false;
      }
      DecodePermutes(tokens[1..], ApplyOp(op, s));
    }
  }

  /** Reverse, then slice 2: "abcdef" becomes "dcba". */
  lemma ReverseThenSlice()
    ensures Decodable(["rv", "sl2"], "abcdef") && Decode(["rv", "sl2"], "abcdef") == "dcba"
  {
    var tokens := ["rv", "sl2"];
    ReversedExample();
    assert Classify(tokens[0]) == Reverse;
    SliceTwoExample();
    assert tokens[1..] == ["sl2"];
    assert ["sl2"][1..] == [];
  }

  lemma ReversedExample()
    ensures Reversed("abcdef") == "fedcba"
  {
    assert Reversed("f") == "f";
    assert "abcdef"[1..] == "bcdef";
    assert "bcdef"[1..] == "cdef";
    assert "cdef"[1..] == "def";
    assert "def"[1..] == "ef";
    assert "ef"[1..] == "f";
  }

  lemma SliceTwoExample()
    ensures Classify("sl2") == SliceFrom(2)
    ensures Decodable(["sl2"], "fedcba") && Decode(["sl2"], "fedcba") == "dcba"
  {
    assert Tag("sl2") == "sl" && "sl2"[2..] == "2";
    assert DigitsValue("2") == 2;
    assert ["sl2"][1..] == [];
  }
}
