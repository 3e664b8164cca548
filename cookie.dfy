/**
 * The cookie header codec: `ParsingCookieToJson` turns `k=v; k2=v2` text (one
 * string or a list of them) into an object, `ParsingCookieToString` turns an
 * object back into text, and `uploadCookie` merges the stored cookie with a
 * new one by object spread.
 */
module Cookie {
  import opened Wrappers
  import opened JsText

  /**
   * A plain object with string keys, as the spreads build it: its entries in
   * insertion order, each key once.
   */
  type Jar = seq<(string, string)>

  function KeysOf(jar: Jar): seq<string> {
    seq(|jar|, i requires 0 <= i < |jar| => jar[i].0)
  }

  predicate DistinctKeys(jar: Jar) {
    forall i, j :: 0 <= i < j < |jar| ==> jar[i].0 != jar[j].0
  }

  /** `jar[key]`, with `None` for a missing key. */
  function Get(jar: Jar, key: string): (r: Option<string>)
    ensures r.None? <==> key !in KeysOf(jar)
    ensures r.Some? ==> exists i :: 0 <= i < |jar| && jar[i] == (key, r.value)
  {
    if jar == [] then None
    else if jar[0].0 == key then
      assert KeysOf(jar)[0] == key;
      Some(jar[0].1)
    else
      var r := Get(jar[1..], key);
      assert KeysOf(jar) == [jar[0].0] + KeysOf(jar[1..]);
      assert r.Some? ==> exists i :: 1 <= i < |jar| && jar[i] == (key, r.value);
      r
  }

  lemma GetDistinct(jar: Jar, i: nat)
    requires DistinctKeys(jar) && i < |jar|
    ensures Get(jar, jar[i].0) == Some(jar[i].1)
  {
    var r := Get(jar, jar[i].0);
    assert jar[i].0 in KeysOf(jar) by {
      assert KeysOf(jar)[i] == jar[i].0;
    }
  }

  /** `{...jar, [key]: value}`: an existing key keeps its place and takes the new value; a new key goes last. */
  function SetEntry(jar: Jar, key: string, value: string): (r: Jar)
    ensures key in KeysOf(jar) ==> |r| == |jar| && KeysOf(r) == KeysOf(jar)
    ensures key !in KeysOf(jar) ==> r == jar + [(key, value)]
  {
    if jar == [] then [(key, value)]
    else
      assert KeysOf(jar) == [jar[0].0] + KeysOf(jar[1..]);
      if jar[0].0 == key then
        var r := [(key, value)] + jar[1..];
        assert KeysOf(r) == KeysOf(jar);
        r
      else
        var tail := SetEntry(jar[1..], key, value);
        var r := [jar[0]] + tail;
        assert r[1..] == tail;
        assert KeysOf(r) == [jar[0].0] + KeysOf(tail);
        r
  }

  /** After the spread, `key` reads the new value and every other key reads what it read before. */
  lemma {:induction false} SetEntryGet(jar: Jar, key: string, value: string)
    ensures Get(SetEntry(jar, key, value), key) == Some(value)
    ensures forall k :: k != key ==> Get(SetEntry(jar, key, value), k) == Get(jar, k)
  {
    if jar != [] && jar[0].0 != key {
      SetEntryGet(jar[1..], key, value);
      assert SetEntry(jar, key, value)[1..] == SetEntry(jar[1..], key, value);
    }
  }

  /** `SetEntryGet` for one key. */
  lemma SetEntryRead(jar: Jar, key: string, value: string, k: string)
    ensures Get(SetEntry(jar, key, value), k) == if k == key then Some(value) else Get(jar, k)
  {
    SetEntryGet(jar, key, value);
  }

  /** The spread keeps every key once. */
  lemma SetEntryDistinct(jar: Jar, key: string, value: string)
    requires DistinctKeys(jar)
    ensures DistinctKeys(SetEntry(jar, key, value))
  {
    var r := SetEntry(jar, key, value);
    if key in KeysOf(jar) {
      assert forall i :: 0 <= i < |r| ==> r[i].0 == KeysOf(r)[i] == KeysOf(jar)[i] == jar[i].0;
    } else {
      assert forall i :: 0 <= i < |jar| ==> jar[i].0 == KeysOf(jar)[i];
    }
  }

  /**
   * One `;`-separated piece: `None` when it has no `=`; otherwise the trimmed
   * text before the first `=` and the trimmed rest, rejoined with `=`.
   */
  function ParsePiece(piece: string): Option<(string, string)> {
    var arrayCookie := SplitChar(piece, '=');
    if |arrayCookie| <= 1 then None
    else Some((Trim(arrayCookie[0]), Trim(Join(arrayCookie[1..], "="))))
  }

  function AddPiece(jar: Jar, piece: string): Jar {
    match ParsePiece(piece)
    case None => jar
    case Some(entry) => SetEntry(jar, entry.0, entry.1)
  }

  /** The pieces added to `jar` in order. */
  function AddPieces(jar: Jar, pieces: seq<string>): Jar {
    if pieces == [] then jar else AddPiece(AddPieces(jar, pieces[..|pieces| - 1]), pieces[|pieces| - 1])
  }

  /** `filteredCookie(cook)`: every piece of `cook.split(";")`. */
  function AddCookie(jar: Jar, cook: string): Jar {
    AddPieces(jar, SplitChar(cook, ';'))
  }

  /** `headCookie.forEach(filteredCookie)` */
  function AddCookies(jar: Jar, cooks: seq<string>): Jar {
    if cooks == [] then jar else AddCookie(AddCookies(jar, cooks[..|cooks| - 1]), cooks[|cooks| - 1])
  }

  /** The argument of `ParsingCookieToJson`: `string | string[]`. */
  datatype CookieInput = Single(text: string) | Many(texts: seq<string>)

  /** What `ParsingCookieToJson(headCookie)` returns. */
  function CookieJson(headCookie: CookieInput): Jar {
    match headCookie
    case Single(text) => AddCookie([], text)
    case Many(texts) => AddCookies([], texts)
  }

  /** `key=value` for every entry, joined by `"; "`: what `ParsingCookieToString(jar)` returns. */
  function CookieString(jar: Jar): string {
    Join(Pairs(jar), "; ")
  }

  /** `${key}=${value}` for one entry. */
  function Pair(entry: (string, string)): string {
    entry.0 + "=" + entry.1
  }

  function Pairs(jar: Jar): (r: seq<string>)
    ensures |r| == |jar| && forall i :: 0 <= i < |jar| ==> r[i] == Pair(jar[i])
  {
    seq(|jar|, i requires 0 <= i < |jar| => Pair(jar[i]))
  }

  /** `{...A, ...B}`: the entries of `b`, in order, spread over `a`. */
  function Merge(a: Jar, b: Jar): Jar {
    if b == [] then a else SetEntry(Merge(a, b[..|b| - 1]), b[|b| - 1].0, b[|b| - 1].1)
  }

  /** The text `uploadCookie(Cookie)` writes, from the stored cookie text and the new cookie. */
  function UploadedCookie(stored: string, cookie: CookieInput): string {
    CookieString(Merge(CookieJson(Single(stored)), CookieJson(cookie)))
  }

  /** `filteredCookie`: the `forEach` over `cook.split(";")` that reassigns the accumulator. */
  method FilteredCookie(json: Jar, cook: string) returns (r: Jar)
    ensures r == AddCookie(json, cook)
  {
    var pieces := SplitChar(cook, ';');
    r := json;
    for i := 0 to |pieces|
      invariant r == AddPieces(json, pieces[..i])
    {
      assert pieces[..i + 1][..i] == pieces[..i];
      var arrayCookie := SplitChar(pieces[i], '=');
      if |arrayCookie| <= 1 {
        continue;
      }
      var key := Trim(arrayCookie[0]);
      var value := Trim(Join(arrayCookie[1..], "="));
      r := SetEntry(r, key, value);
    }
    assert pieces[..|pieces|] == pieces;
  }

  /** `ParsingCookieToJson(headCookie)` */
  method ParsingCookieToJson(headCookie: CookieInput) returns (json: Jar)
    ensures json == CookieJson(headCookie)
  {
    json := [];
    if headCookie.Single? {
      json := FilteredCookie(json, headCookie.text);
    } else {
      var texts := headCookie.texts;
      for i := 0 to |texts|
        invariant json == AddCookies([], texts[..i])
      {
        assert texts[..i + 1][..i] == texts[..i];
        json := FilteredCookie(json, texts[i]);
      }
      assert texts[..|texts|] == texts;
    }
  }

  /** `ParsingCookieToString(JsonCookie)` */
  method ParsingCookieToString(jsonCookie: Jar) returns (r: string)
    ensures r == CookieString(jsonCookie)
  {
    var result: seq<string> := [];
    for i := 0 to |jsonCookie|
      invariant result == Pairs(jsonCookie[..i])
    {
      var (key, value) := jsonCookie[i];
      result := result + [key + "=" + value];
      assert jsonCookie[..i + 1] == jsonCookie[..i] + [jsonCookie[i]];
    }
    assert jsonCookie[..|jsonCookie|] == jsonCookie;
    r := Join(result, "; ");
  }

  // Properties of the parser.

  /** A piece with no `=` is skipped. */
  lemma PieceWithoutEquals(jar: Jar, piece: string)
    requires '=' !in piece
    ensures ParsePiece(piece).None?
    ensures AddPiece(jar, piece) == jar
  {
    SplitCharNone(piece, '=');
  }

  /** The key is the trimmed text before the first `=`, the value the trimmed rest with its own `=` kept. */
  lemma PieceKeyValue(key: string, value: string)
    requires '=' !in key
    ensures ParsePiece(key + "=" + value) == Some((Trim(key), Trim(value)))
  {
    SplitCharCons(key, '=', value);
    SplitCharJoin(value, '=');
    var parts := SplitChar(key + "=" + value, '=');
    assert parts[1..] == SplitChar(value, '=');
  }

  /** The same, for a piece cut at its first `=`. */
  lemma PieceAtFirstEquals(piece: string, i: nat)
    requires i < |piece| && piece[i] == '=' && '=' !in piece[..i]
    ensures ParsePiece(piece) == Some((Trim(piece[..i]), Trim(piece[i + 1..])))
  {
    assert piece == piece[..i] + "=" + piece[i + 1..];
    PieceKeyValue(piece[..i], piece[i + 1..]);
  }

  /** Every entry a piece yields: the key is trimmed and has no `=`, both parts are trimmed and carry nothing the piece lacks. */
  predicate GoodEntry(entry: (string, string)) {
    && Trimmed(entry.0) && '=' !in entry.0 && ';' !in entry.0
    && Trimmed(entry.1) && ';' !in entry.1
  }

  lemma PieceEntry(piece: string)
    requires ';' !in piece
    ensures ParsePiece(piece).Some? <==> '=' in piece
    ensures ParsePiece(piece).Some? ==> GoodEntry(ParsePiece(piece).value)
  {
    if '=' !in piece {
      PieceWithoutEquals([], piece);
    } else {
      var i :| 0 <= i < |piece| && piece[i] == '=';
      while i > 0 && '=' in piece[..i]
        invariant 0 <= i < |piece| && piece[i] == '='
        decreases i
      {
        var j :| 0 <= j < i && piece[..i][j] == '=';
        i := j;
      }
      PieceAtFirstEquals(piece, i);
      assert i == 0 ==> piece[..i] == [];
      TrimTrimmed(piece[..i]);
      TrimTrimmed(piece[i + 1..]);
      assert forall c :: c in piece[..i] ==> c in piece;
      assert forall c :: c in piece[i + 1..] ==> c in piece;
    }
  }

  /** `piece` sets `key`. */
  predicate SetsKey(piece: string, key: string) {
    ParsePiece(piece).Some? && ParsePiece(piece).value.0 == key
  }

  /** Lookup after parsing: a key no piece sets reads what it read before. */
  lemma {:induction false} UnsetKeyKept(jar: Jar, pieces: seq<string>, key: string)
    requires forall i :: 0 <= i < |pieces| ==> !SetsKey(pieces[i], key)
    ensures Get(AddPieces(jar, pieces), key) == Get(jar, key)
  {
    if pieces != [] {
      var init, last := pieces[..|pieces| - 1], pieces[|pieces| - 1];
      assert forall i :: 0 <= i < |init| ==> init[i] == pieces[i];
      UnsetKeyKept(jar, init, key);
      PieceKeepsOthers(AddPieces(jar, init), last, key);
    }
  }

  /** A piece that does not set `key` leaves its value alone. */
  lemma PieceKeepsOthers(jar: Jar, piece: string, key: string)
    requires !SetsKey(piece, key)
    ensures Get(AddPiece(jar, piece), key) == Get(jar, key)
  {
    match ParsePiece(piece)
    case None =>
    case Some(entry) => SetEntryGet(jar, entry.0, entry.1);
  }

  /** A piece that sets `key` gives it the piece's value. */
  lemma PieceSets(jar: Jar, piece: string, key: string)
    requires SetsKey(piece, key)
    ensures Get(AddPiece(jar, piece), key) == Some(ParsePiece(piece).value.1)
  {
    var entry := ParsePiece(piece).value;
    SetEntryGet(jar, entry.0, entry.1);
  }

  /** Lookup after parsing: a key reads the value of the last piece that sets it. */
  lemma {:induction false} LastPieceWins(jar: Jar, pieces: seq<string>, key: string, i: nat)
    requires i < |pieces| && SetsKey(pieces[i], key)
    requires forall j :: i < j < |pieces| ==> !SetsKey(pieces[j], key)
    ensures Get(AddPieces(jar, pieces), key) == Some(ParsePiece(pieces[i]).value.1)
  {
    var init, last := pieces[..|pieces| - 1], pieces[|pieces| - 1];
    assert AddPieces(jar, pieces) == AddPiece(AddPieces(jar, init), last);
    if i == |pieces| - 1 {
      PieceSets(AddPieces(jar, init), last, key);
    } else {
      assert init[i] == pieces[i];
      assert forall j :: i < j < |init| ==> init[j] == pieces[j];
      LastPieceWins(jar, init, key, i);
      PieceKeepsOthers(AddPieces(jar, init), last, key);
    }
  }

  /** Parsing keeps every key once. */
  lemma {:induction false} AddPiecesDistinct(jar: Jar, pieces: seq<string>)
    requires DistinctKeys(jar)
    ensures DistinctKeys(AddPieces(jar, pieces))
  {
    if pieces != [] {
      AddPiecesDistinct(jar, pieces[..|pieces| - 1]);
      match ParsePiece(pieces[|pieces| - 1])
      case None =>
      case Some(entry) => SetEntryDistinct(AddPieces(jar, pieces[..|pieces| - 1]), entry.0, entry.1);
    }
  }

  lemma {:induction false} AddPiecesAppend(jar: Jar, a: seq<string>, b: seq<string>)
    ensures AddPieces(jar, a + b) == AddPieces(AddPieces(jar, a), b)
    decreases |b|
  {
    if b == [] {
      assert a + b == a;
    } else {
      assert (a + b)[..|a + b| - 1] == a + b[..|b| - 1];
      AddPiecesAppend(jar, a, b[..|b| - 1]);
    }
  }

  /** All pieces of a list of cookie strings, string by string. */
  function AllPieces(cooks: seq<string>): seq<string> {
    if cooks == [] then [] else AllPieces(cooks[..|cooks| - 1]) + SplitChar(cooks[|cooks| - 1], ';')
  }

  /** A list is processed string by string into one accumulator: as if its pieces were one list. */
  lemma {:induction false} AddCookiesFlat(jar: Jar, cooks: seq<string>)
    ensures AddCookies(jar, cooks) == AddPieces(jar, AllPieces(cooks))
  {
    if cooks != [] {
      var init := cooks[..|cooks| - 1];
      AddCookiesFlat(jar, init);
      AddPiecesAppend(jar, AllPieces(init), SplitChar(cooks[|cooks| - 1], ';'));
    }
  }

  /** A single string behaves like a one-element list. */
  lemma SingleIsOneElementList(text: string)
    ensures CookieJson(Single(text)) == CookieJson(Many([text]))
  {
    assert [text][..0] == [];
  }

  /** Every parsed object has each key once and only entries a piece can yield. */
  lemma ParsedIsGood(headCookie: CookieInput)
    ensures DistinctKeys(CookieJson(headCookie))
    ensures forall i :: 0 <= i < |CookieJson(headCookie)| ==> GoodEntry(CookieJson(headCookie)[i])
  {
    var pieces := if headCookie.Single? then SplitChar(headCookie.text, ';') else AllPieces(headCookie.texts);
    if headCookie.Many? {
      AddCookiesFlat([], headCookie.texts);
      AllPiecesWithoutSemicolon(headCookie.texts);
    } else {
      SplitCharJoin(headCookie.text, ';');
    }
    AddPiecesDistinct([], pieces);
    AddPiecesGood([], pieces);
  }

  lemma {:induction false} AllPiecesWithoutSemicolon(cooks: seq<string>)
    ensures forall i :: 0 <= i < |AllPieces(cooks)| ==> ';' !in AllPieces(cooks)[i]
  {
    if cooks != [] {
      AllPiecesWithoutSemicolon(cooks[..|cooks| - 1]);
      SplitCharJoin(cooks[|cooks| - 1], ';');
    }
  }

  lemma {:induction false} AddPiecesGood(jar: Jar, pieces: seq<string>)
    requires forall i :: 0 <= i < |jar| ==> GoodEntry(jar[i])
    requires forall i :: 0 <= i < |pieces| ==> ';' !in pieces[i]
    ensures forall i :: 0 <= i < |AddPieces(jar, pieces)| ==> GoodEntry(AddPieces(jar, pieces)[i])
  {
    if pieces != [] {
      var init := pieces[..|pieces| - 1];
      AddPiecesGood(jar, init);
      var last := pieces[|pieces| - 1];
      PieceEntry(last);
      match ParsePiece(last)
      case None =>
      case Some(entry) => SetEntryEntries(AddPieces(jar, init), entry.0, entry.1);
    }
  }

  /** The spread adds the new entry and keeps or replaces the others. */
  lemma {:induction false} SetEntryEntries(jar: Jar, key: string, value: string)
    ensures forall i :: 0 <= i < |SetEntry(jar, key, value)| ==>
      SetEntry(jar, key, value)[i] == (key, value) || SetEntry(jar, key, value)[i] in jar
  {
    if jar != [] && jar[0].0 != key {
      SetEntryEntries(jar[1..], key, value);
      assert SetEntry(jar, key, value)[1..] == SetEntry(jar[1..], key, value);
      assert forall e :: e in jar[1..] ==> e in jar;
    }
  }

  // Serialising and merging.

  /** An object the serialiser can write so that the parser reads it back. */
  predicate Writable(jar: Jar) {
    DistinctKeys(jar) && forall i :: 0 <= i < |jar| ==> GoodEntry(jar[i])
  }

  /** The pieces `split(";")` finds in the serialised text: every pair after the first keeps the space of `"; "`. */
  function Written(jar: Jar): (r: seq<string>)
    ensures |r| == |jar| && forall i :: 0 <= i < |jar| ==> r[i] == (if i == 0 then "" else " ") + Pair(jar[i])
  {
    seq(|jar|, i requires 0 <= i < |jar| => (if i == 0 then "" else " ") + Pair(jar[i]))
  }

  lemma {:induction false} SplitWritten(jar: Jar)
    requires jar != [] && Writable(jar)
    ensures SplitChar(CookieString(jar), ';') == Written(jar)
    decreases |jar|
  {
    WritableInit(jar);
    var last := jar[|jar| - 1];
    assert ';' !in Pair(last);
    if |jar| == 1 {
      assert Pairs(jar) == [Pair(last)];
      SplitCharNone(Pair(last), ';');
      assert Written(jar) == ["" + Pair(last)];
      assert "" + Pair(last) == Pair(last);
    } else {
      SplitWritten(jar[..|jar| - 1]);
      CookieStringSnoc(jar);
      SplitAfterSpacedSemicolon(CookieString(jar[..|jar| - 1]), Pair(last));
      WrittenSnoc(jar);
    }
  }

  /** The text of an object ends with `"; "` and the pair of its last entry. */
  lemma CookieStringSnoc(jar: Jar)
    requires |jar| >= 2
    ensures CookieString(jar) == CookieString(jar[..|jar| - 1]) + "; " + Pair(jar[|jar| - 1])
  {
    var init := jar[..|jar| - 1];
    assert Pairs(jar) == Pairs(init) + [Pair(jar[|jar| - 1])];
    JoinSnoc(Pairs(init), Pair(jar[|jar| - 1]), "; ");
  }

  lemma WrittenSnoc(jar: Jar)
    requires |jar| >= 2
    ensures Written(jar) == Written(jar[..|jar| - 1]) + [" " + Pair(jar[|jar| - 1])]
  {
  }

  /** `split(";")` of a text, `"; "` and a piece without `;` adds that piece with its space. */
  lemma SplitAfterSpacedSemicolon(text: string, piece: string)
    requires ';' !in piece
    ensures SplitChar(text + "; " + piece, ';') == SplitChar(text, ';') + [" " + piece]
  {
    assert text + "; " + piece == text + [';'] + (" " + piece);
    SplitCharSnoc(text, ';', " " + piece);
  }

  /** A written pair, with or without the space of `"; "`, parses as that entry. */
  lemma ParseWrittenPair(prefix: string, entry: (string, string))
    requires prefix == "" || prefix == " "
    requires GoodEntry(entry)
    ensures ParsePiece(prefix + Pair(entry)) == Some(entry)
  {
    var key, value := entry.0, entry.1;
    assert prefix + Pair(entry) == (prefix + key) + "=" + value;
    assert '=' !in prefix + key;
    PieceKeyValue(prefix + key, value);
    SpacedKey(prefix, key);
    TrimIdentity(value);
  }

  lemma SpacedKey(prefix: string, key: string)
    requires prefix == "" || prefix == " "
    requires Trimmed(key)
    ensures Trim(prefix + key) == key
  {
    if prefix == "" {
      assert prefix + key == key;
      TrimIdentity(key);
    } else {
      assert IsSpace(prefix[0]);
      TrimStartSpaces(prefix, key);
      TrimIdentity(key);
    }
  }

  /** A written pair whose key is new is read back as that entry, appended. */
  lemma ReadPair(jar: Jar, prefix: string, entry: (string, string))
    requires prefix == "" || prefix == " "
    requires GoodEntry(entry) && entry.0 !in KeysOf(jar)
    ensures AddPiece(jar, prefix + Pair(entry)) == jar + [entry]
  {
    ParseWrittenPair(prefix, entry);
  }

  lemma {:induction false} ReadWritten(jar: Jar)
    requires Writable(jar)
    ensures AddPieces([], Written(jar)) == jar
    decreases |jar|
  {
    if jar != [] {
      WritableInit(jar);
      ReadWritten(jar[..|jar| - 1]);
      WrittenPrefix(jar);
      ReadPair(jar[..|jar| - 1], if |jar| == 1 then "" else " ", jar[|jar| - 1]);
      assert jar[..|jar| - 1] + [jar[|jar| - 1]] == jar;
    }
  }

  /** The pieces of an object are those of all its entries but the last, then the last one's. */
  lemma WrittenPrefix(jar: Jar)
    requires jar != []
    ensures AddPieces([], Written(jar))
         == AddPiece(AddPieces([], Written(jar[..|jar| - 1])), (if |jar| == 1 then "" else " ") + Pair(jar[|jar| - 1]))
  {
    var pieces := Written(jar);
    assert pieces[..|jar| - 1] == Written(jar[..|jar| - 1]);
  }

  /** Without its last entry an object is still writable, and the last key is new to the rest. */
  lemma WritableInit(jar: Jar)
    requires jar != [] && Writable(jar)
    ensures Writable(jar[..|jar| - 1]) && GoodEntry(jar[|jar| - 1])
    ensures jar[|jar| - 1].0 !in KeysOf(jar[..|jar| - 1])
  {
    LastKeyNew(jar);
  }

  /** In an object with distinct keys, the last key is new to the entries before it. */
  lemma LastKeyNew(jar: Jar)
    requires jar != [] && DistinctKeys(jar)
    ensures DistinctKeys(jar[..|jar| - 1])
    ensures jar[|jar| - 1].0 !in KeysOf(jar[..|jar| - 1])
  {
    var init := jar[..|jar| - 1];
    assert forall j :: 0 <= j < |init| ==> KeysOf(init)[j] == jar[j].0 != jar[|jar| - 1].0;
  }

  /** Writing an object and parsing the text gives the object back. */
  lemma RoundTrip(jar: Jar)
    requires Writable(jar)
    ensures CookieJson(Single(CookieString(jar))) == jar
  {
    if jar == [] {
      var pieces: seq<string> := [[]];
      assert SplitChar([], ';') == pieces;
      assert SplitChar([], '=') == pieces;
      assert pieces[..0] == [];
    } else {
      SplitWritten(jar);
      ReadWritten(jar);
    }
  }

  /** The empty object is written as the empty string. */
  lemma EmptyWritesNothing()
    ensures CookieString([]) == ""
  {
  }

  lemma {:induction false} GetSnoc(jar: Jar, entry: (string, string), key: string)
    ensures key != entry.0 ==> Get(jar + [entry], key) == Get(jar, key)
    ensures key == entry.0 && key !in KeysOf(jar) ==> Get(jar + [entry], key) == Some(entry.1)
  {
    if jar != [] {
      assert (jar + [entry])[1..] == jar[1..] + [entry];
      GetSnoc(jar[1..], entry, key);
      assert KeysOf(jar) == [jar[0].0] + KeysOf(jar[1..]);
    }
  }

  lemma KeysSnoc(jar: Jar, entry: (string, string))
    ensures KeysOf(jar + [entry]) == KeysOf(jar) + [entry.0]
  {
  }

  /** The merge reads the new cookie's value where it has the key, and the stored value elsewhere. */
  lemma {:induction false} MergeGet(a: Jar, b: Jar, key: string)
    requires DistinctKeys(b)
    ensures Get(Merge(a, b), key) == if key in KeysOf(b) then Get(b, key) else Get(a, key)
    decreases |b|
  {
    if b != [] {
      LastKeyNew(b);
      MergeGet(a, b[..|b| - 1], key);
      MergeStep(a, Merge(a, b[..|b| - 1]), b, key);
    }
  }

  /** One more entry spread over `m`, the merge of `a` and all of `b` but its last entry, reads as the merge of `a` and `b`. */
  lemma MergeStep(a: Jar, m: Jar, b: Jar, key: string)
    requires b != [] && b[|b| - 1].0 !in KeysOf(b[..|b| - 1])
    requires Get(m, key) == if key in KeysOf(b[..|b| - 1]) then Get(b[..|b| - 1], key) else Get(a, key)
    ensures Get(SetEntry(m, b[|b| - 1].0, b[|b| - 1].1), key)
         == if key in KeysOf(b) then Get(b, key) else Get(a, key)
  {
    var init, last := b[..|b| - 1], b[|b| - 1];
    assert b == init + [last];
    SetEntryRead(m, last.0, last.1, key);
    KeysSnoc(init, last);
    GetSnoc(init, last, key);
  }

  /** The merge holds every key of both objects and no other. */
  lemma MergeKeys(a: Jar, b: Jar, key: string)
    requires DistinctKeys(b)
    ensures key in KeysOf(Merge(a, b)) <==> key in KeysOf(a) || key in KeysOf(b)
  {
    MergeGet(a, b, key);
  }

  lemma {:induction false} MergeGood(a: Jar, b: Jar)
    requires Writable(a) && Writable(b)
    ensures Writable(Merge(a, b))
    decreases |b|
  {
    if b != [] {
      var init, last := b[..|b| - 1], b[|b| - 1];
      assert Writable(init);
      MergeGood(a, init);
      SetEntryDistinct(Merge(a, init), last.0, last.1);
      SetEntryEntries(Merge(a, init), last.0, last.1);
    }
  }

  /**
   * The text `uploadCookie` writes parses back to the merge of the stored
   * cookie and the new one, whatever the inputs.
   */
  lemma UploadRoundTrip(stored: string, cookie: CookieInput)
    ensures CookieJson(Single(UploadedCookie(stored, cookie))) == Merge(CookieJson(Single(stored)), CookieJson(cookie))
  {
    ParsedIsGood(Single(stored));
    ParsedIsGood(cookie);
    MergeGood(CookieJson(Single(stored)), CookieJson(cookie));
    RoundTrip(Merge(CookieJson(Single(stored)), CookieJson(cookie)));
  }
}
