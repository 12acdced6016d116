/**
 References as JSON Pointers in URI fragments: sections 3, 4 and 6 of RFC 6901 against
 the decoding in openapi_spec_parser.py, `_get_referenced_data`.
 */
module JsonPointers {
  import opened Wrappers
  import opened Strings
  import opened Json

  // ------------------------------------------------------------------ string operations

  /** Replaces every occurrence of the two characters a, b, from left to right, by r. */
  function Replace(s: string, a: char, b: char, r: string): string {
    if s == [] then []
    else if |s| >= 2 && s[0] == a && s[1] == b then r + Replace(s[2..], a, b, r)
    else [s[0]] + Replace(s[1..], a, b, r)
  }

  /** Drops leading '#' and '/' characters. */
  function LStrip(s: string): string {
    if s != [] && (s[0] == '#' || s[0] == '/') then LStrip(s[1..]) else s
  }

  function Decode(part: string): string {
    Replace(Replace(part, '~', '1', "/"), '~', '0', "~")
  }

  function DecodeAll(parts: seq<string>): seq<string> {
    if parts == [] then [] else [Decode(parts[0])] + DecodeAll(parts[1..])
  }

  /** The keys a reference stands for; None if it does not start with "#/". */
  function ParsePointer(ref: string): Option<seq<string>> {
    if |ref| >= 2 && ref[0] == '#' && ref[1] == '/' then Some(DecodeAll(Split(LStrip(ref), '/'))) else None
  }

  // ------------------------------------------------------------------ the notation, as the standard has it

  /** Section 3: '~' is written "~0" and '/' is written "~1". */
  function Escape(key: string): string {
    if key == [] then []
    else (if key[0] == '~' then "~0" else if key[0] == '/' then "~1" else [key[0]]) + Escape(key[1..])
  }

  /** Sections 3 and 6: '#', then every key after a '/'. */
  function Encode(keys: seq<string>): string {
    "#" + Slashed(keys)
  }

  function Slashed(keys: seq<string>): string {
    if keys == [] then [] else "/" + Escape(keys[0]) + Slashed(keys[1..])
  }

  // ------------------------------------------------------------------ the round trip

  /** '~' as "~0", everything else as it is. */
  function HalfEscape(key: string): string {
    if key == [] then [] else (if key[0] == '~' then "~0" else [key[0]]) + HalfEscape(key[1..])
  }

  lemma {:induction false} DecodeSlashes(key: string)
    ensures Replace(Escape(key), '~', '1', "/") == HalfEscape(key)
  {
    if key != [] {
      DecodeSlashes(key[1..]);
      var rest := Escape(key[1..]);
      if key[0] == '~' {
        assert ("~0" + rest)[1..] == "0" + rest;
        assert ("0" + rest)[1..] == rest;
      } else if key[0] == '/' {
        assert ("~1" + rest)[2..] == rest;
      } else {
        assert ([key[0]] + rest)[1..] == rest;
      }
    }
  }

  lemma {:induction false} DecodeTildes(key: string)
    ensures Replace(HalfEscape(key), '~', '0', "~") == key
  {
    if key != [] {
      DecodeTildes(key[1..]);
      var rest := HalfEscape(key[1..]);
      if key[0] == '~' {
        assert ("~0" + rest)[2..] == rest;
      } else {
        assert ([key[0]] + rest)[1..] == rest;
      }
    }
  }

  /** Section 4: decoding "~1" before "~0" undoes the escaping, for every key. */
  lemma DecodeUndoesEscape(key: string)
    ensures Decode(Escape(key)) == key
  {
    DecodeSlashes(key);
    DecodeTildes(key);
  }

  /** '/' as "~1", everything else as it is. */
  function SlashEscape(key: string): string {
    if key == [] then [] else (if key[0] == '/' then "~1" else [key[0]]) + SlashEscape(key[1..])
  }

  lemma {:induction false} TildesDecodedFirst(key: string)
    ensures Replace(Escape(key), '~', '0', "~") == SlashEscape(key)
  {
    if key != [] {
      TildesDecodedFirst(key[1..]);
      var rest := Escape(key[1..]);
      if key[0] == '~' {
        assert ("~0" + rest)[2..] == rest;
      } else if key[0] == '/' {
        assert ("~1" + rest)[1..] == "1" + rest;
        assert ("1" + rest)[1..] == rest;
      } else {
        assert ([key[0]] + rest)[1..] == rest;
      }
    }
  }

  lemma {:induction false} SlashesDecodedLast(key: string)
    ensures Replace(SlashEscape(key), '~', '1', "/") == Replace(key, '~', '1', "/")
  {
    if key != [] {
      SlashesDecodedLast(key[1..]);
      var rest := SlashEscape(key[1..]);
      if key[0] == '/' {
        assert ("~1" + rest)[2..] == rest;
      } else {
        assert ([key[0]] + rest)[1..] == rest;
        if |key| > 1 && key[0] == '~' && key[1] == '1' {
          SlashesDecodedLast(key[2..]);
          assert key[1..][1..] == key[2..];
          assert rest == "1" + SlashEscape(key[2..]);
          assert ([key[0]] + rest)[2..] == SlashEscape(key[2..]);
        }
      }
    }
  }

  ghost predicate Contains(s: string, a: char, b: char) {
    exists i, j :: 0 <= i && j == i + 1 && j < |s| && s[i] == a && s[j] == b
  }

  lemma ContainsFromFirst(s: string, a: char, b: char)
    requires |s| > 1
    ensures Contains(s, a, b) <==> (s[0] == a && s[1] == b) || Contains(s[1..], a, b)
  {
    if i, j :| 0 <= i && j == i + 1 && j < |s| && s[i] == a && s[j] == b {
      assert i > 0 ==> s[1..][i - 1] == a && s[1..][j - 1] == b;
    }
    if i, j :| 0 <= i && j == i + 1 && j < |s[1..]| && s[1..][i] == a && s[1..][j] == b {
      assert s[i + 1] == a && s[j + 1] == b;
    }
  }

  /** Replacing two characters by one changes nothing exactly when they do not occur. */
  lemma {:induction false} ReplaceShortens(s: string, a: char, b: char, r: char)
    ensures |Replace(s, a, b, [r])| <= |s|
    ensures Replace(s, a, b, [r]) == s <==> !Contains(s, a, b)
    ensures Contains(s, a, b) ==> |Replace(s, a, b, [r])| < |s|
  {
    if |s| > 1 {
      ContainsFromFirst(s, a, b);
      if s[0] == a && s[1] == b {
        ReplaceShortens(s[2..], a, b, r);
      } else {
        ReplaceShortens(s[1..], a, b, r);
        assert s == [s[0]] + s[1..];
      }
    }
  }

  /** Decoding in the other order misreads exactly the keys that contain "~1", taking it for a slash. */
  lemma OrderOfDecodingMatters(key: string)
    ensures var wrong := Replace(Replace(Escape(key), '~', '0', "~"), '~', '1', "/");
            && wrong == Replace(key, '~', '1', "/")
            && (wrong == key <==> !Contains(key, '~', '1'))
  {
    TildesDecodedFirst(key);
    SlashesDecodedLast(key);
    ReplaceShortens(key, '~', '1', '/');
  }

  lemma {:induction false} EscapeHasNoSlash(key: string)
    ensures '/' !in Escape(key)
  {
    if key != [] {
      EscapeHasNoSlash(key[1..]);
    }
  }

  /** What is left of the slashed keys after the first slash. */
  function Joined(keys: seq<string>): string
    requires keys != []
  {
    Escape(keys[0]) + Slashed(keys[1..])
  }

  lemma JoinedAgain(keys: seq<string>)
    requires keys != []
    ensures Joined(keys) == if |keys| == 1 then Escape(keys[0]) else Escape(keys[0]) + "/" + Joined(keys[1..])
  {
  }

  lemma DecodeFirst(part: string, rest: seq<string>)
    ensures DecodeAll([part] + rest) == [Decode(part)] + DecodeAll(rest)
  {
  }

  lemma {:induction false} SplitUndoesJoin(keys: seq<string>)
    requires keys != []
    ensures DecodeAll(Split(Joined(keys), '/')) == keys
  {
    hide Decode, Escape, Split, Joined;
    var first := Escape(keys[0]);
    EscapeHasNoSlash(keys[0]);
    DecodeUndoesEscape(keys[0]);
    JoinedAgain(keys);
    SplitWithout(first, '/');
    DecodeFirst(first, if |keys| == 1 then [] else Split(Joined(keys[1..]), '/'));
    if |keys| > 1 {
      SplitUndoesJoin(keys[1..]);
      SplitConcat(first, '/', Joined(keys[1..]));
    }
  }

  /** The keys that remain after `lstrip("#/")` has run over the joined keys. */
  function StripKeys(keys: seq<string>): (kept: seq<string>)
    requires keys != []
    ensures kept != []
    decreases |keys|, |keys[0]|
  {
    if keys[0] != [] && keys[0][0] == '#' then StripKeys([keys[0][1..]] + keys[1..])
    else if keys[0] == [] && |keys| > 1 then StripKeys(keys[1..])
    else keys
  }

  lemma {:induction false} StripRemovesKeys(keys: seq<string>)
    requires keys != []
    ensures LStrip(Joined(keys)) == Joined(StripKeys(keys))
    decreases |keys|, |keys[0]|
  {
    if keys[0] != [] && keys[0][0] == '#' {
      var shorter := [keys[0][1..]] + keys[1..];
      StripRemovesKeys(shorter);
      assert shorter[1..] == keys[1..];
      assert Joined(keys) == "#" + Joined(shorter);
      assert ("#" + Joined(shorter))[1..] == Joined(shorter);
    } else if keys[0] == [] && |keys| > 1 {
      StripRemovesKeys(keys[1..]);
      assert Joined(keys) == "/" + Joined(keys[1..]);
      assert ("/" + Joined(keys[1..]))[1..] == Joined(keys[1..]);
    } else if keys[0] == [] {
      assert Joined(keys) == [];
    } else {
      assert Joined(keys)[0] != '#' && Joined(keys)[0] != '/';
    }
  }

  /** A check on the keys: the first is non-empty and does not start with '#' (or is the only key, and empty). */
  predicate Representable(keys: seq<string>) {
    keys != [] && (keys == [""] || (keys[0] != [] && keys[0][0] != '#'))
  }

  lemma {:induction false} StripKeepsRepresentable(keys: seq<string>)
    requires keys != []
    ensures StripKeys(keys) == keys <==> Representable(keys)
    ensures |StripKeys(keys)| < |keys| || (|StripKeys(keys)| == |keys| && |StripKeys(keys)[0]| <= |keys[0]|)
    decreases |keys|, |keys[0]|
  {
    if keys[0] != [] && keys[0][0] == '#' {
      StripKeepsRepresentable([keys[0][1..]] + keys[1..]);
    } else if keys[0] == [] && |keys| > 1 {
      StripKeepsRepresentable(keys[1..]);
    }
  }

  /** What the decoding makes of a pointer, for any keys at all. */
  lemma ParseOfEncode(keys: seq<string>)
    ensures ParsePointer(Encode(keys)) == if keys == [] then None else Some(StripKeys(keys))
  {
    if keys != [] {
      var ref := Encode(keys);
      assert ref == "#/" + Joined(keys);
      assert ref[1..] == "/" + Joined(keys);
      assert ref[1..][1..] == Joined(keys);
      assert LStrip(ref) == LStrip(Joined(keys));
      StripRemovesKeys(keys);
      SplitUndoesJoin(StripKeys(keys));
    }
  }

  /** The round trip, with its exact condition. */
  lemma PointerRoundTrip(keys: seq<string>)
    ensures ParsePointer(Encode(keys)) == Some(keys) <==> Representable(keys)
  {
    ParseOfEncode(keys);
    if keys != [] {
      StripKeepsRepresentable(keys);
    }
  }

  // ------------------------------------------------------------------ following a pointer

  /** One decoded part leads to a dictionary's field or to a list's element, or raises. */
  function Enter(d: Json, part: string): Option<Json> {
    if d.Dict? then Child(d, Field(part))
    else if d.List? && IsDigits(part) then Child(d, Index(ToNat(part)))
    else None
  }

  function Navigate(d: Json, parts: seq<string>): Option<Json> {
    if parts == [] then Some(d)
    else match Enter(d, parts[0])
         case None => None
         case Some(c) => Navigate(c, parts[1..])
  }

  /** What a reference resolves to; None if that raises. */
  function Referenced(spec: Json, ref: string): Option<Json> {
    match ParsePointer(ref)
    case None => Some(Dict(map["error" := Text("External reference " + ref + " not supported")]))
    case Some(parts) => Navigate(spec, parts)
  }

  /** A pointer written by the standard reaches exactly the node at its path, whatever the document holds. */
  lemma ReferenceReachesPath(spec: Json, keys: seq<string>)
    requires Representable(keys)
    ensures Referenced(spec, Encode(keys)) == Navigate(spec, keys)
  {
    PointerRoundTrip(keys);
  }

  lemma {:induction false} NavigateOneMore(d: Json, parts: seq<string>, part: string)
    ensures Navigate(d, parts + [part]) ==
            match Navigate(d, parts) case None => None case Some(node) => Enter(node, part)
  {
    if parts == [] {
      assert [] + [part] == [part];
    } else {
      assert (parts + [part])[1..] == parts[1..] + [part];
      if Enter(d, parts[0]).Some? {
        NavigateOneMore(Enter(d, parts[0]).value, parts[1..], part);
      }
    }
  }

  /** What is under a key of a node: the field, the element of that number, or nothing. */
  ghost predicate IsUnder(node: Json, key: string, child: Option<Json>) {
    match node
    case Dict(fields) => child == if key in fields then Some(fields[key]) else None
    case List(items) =>
      && (!IsDigits(key) ==> child == None)
      && forall i: nat :: key == Decimal(i) ==> child == if i < |items| then Some(items[i]) else None
    case _ => child == None
  }

  lemma EnterIsUnder(node: Json, key: string)
    ensures IsUnder(node, key, Enter(node, key))
  {
    forall i: nat | key == Decimal(i) ensures ToNat(key) == i {
      ToNatOfDecimal(i);
    }
  }

  /** One more key at the end of a pointer. */
  lemma PointerToChild(spec: Json, keys: seq<string>, key: string)
    requires Representable(keys + [key])
    ensures var (node, child) := (if keys == [] then Some(spec) else Referenced(spec, Encode(keys)), Referenced(spec, Encode(keys + [key])));
            if node.None? then child == None else IsUnder(node.value, key, child)
  {
    hide Referenced, IsUnder, Encode, Enter;
    ReferenceReachesPath(spec, keys + [key]);
    NavigateOneMore(spec, keys, key);
    if keys != [] {
      assert (keys + [key])[0] == keys[0];
      ReferenceReachesPath(spec, keys);
    }
    match Navigate(spec, keys)
    case None =>
    case Some(node) => EnterIsUnder(node, key);
  }

  /** Otherwise some document shows the difference. */
  lemma UnrepresentableMisses(keys: seq<string>)
    requires keys != [] && !Representable(keys)
    ensures exists spec :: Navigate(spec, keys) != None && Referenced(spec, Encode(keys)) != Navigate(spec, keys)
  {
    StripKeepsRepresentable(keys);
    ParseOfEncode(keys);
    var spec := Telling(keys);
    TellingLeadsToNull(keys);
    TellingOnlyAlong(keys, StripKeys(keys));
    assert Navigate(spec, keys) == Some(Null);
  }

  /** A document with one path of dictionaries, ending in null. */
  function Telling(keys: seq<string>): Json {
    if keys == [] then Null else Dict(map[keys[0] := Telling(keys[1..])])
  }

  lemma {:induction false} TellingLeadsToNull(keys: seq<string>)
    ensures Navigate(Telling(keys), keys) == Some(Null)
  {
    if keys != [] {
      TellingLeadsToNull(keys[1..]);
    }
  }

  lemma {:induction false} TellingOnlyAlong(keys: seq<string>, other: seq<string>)
    requires other != keys
    ensures Navigate(Telling(keys), other) != Some(Null)
  {
    if keys != [] && other != [] {
      assert keys == [keys[0]] + keys[1..] && other == [other[0]] + other[1..];
      if keys[0] == other[0] {
        TellingOnlyAlong(keys[1..], other[1..]);
      }
    }
  }
}
