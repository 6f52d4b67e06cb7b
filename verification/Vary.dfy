/**
 * Vary matching (crates/rv-http/src/vary.rs) on top of the header map's first-match,
 * ASCII-case-insensitive `get` (crates/rv-http/src/header.rs).
 */
module Vary {
  import opened Types
  import opened Endian

  // ---------------------------------------------------------------- strings and headers

  /** The UTF-8 conversions are foreign code; all that is used is that they invert each other. */
  datatype Utf8 = Utf8(enc: string -> seq<byte>, dec: seq<byte> -> Option<string>)

  ghost predicate Inverse(u: Utf8) {
    && (forall s :: u.dec(u.enc(s)) == Some(s))
    && (forall b | u.dec(b).Some? :: u.enc(u.dec(b).value) == b)
  }

  datatype Header = Header(name: string, value: string)

  function LowerAscii(c: char): char {
    if 'A' <= c <= 'Z' then c - 'A' + 'a' else c
  }

  predicate EqIgnoreAsciiCase(a: string, b: string) {
    |a| == |b| && forall i | 0 <= i < |a| :: LowerAscii(a[i]) == LowerAscii(b[i])
  }

  /** `HeaderMap::get`, with the empty string for a header that is not there. */
  function GetOrEmpty(headers: seq<Header>, name: string): string {
    if headers == [] then ""
    else if EqIgnoreAsciiCase(headers[0].name, name) then headers[0].value
    else GetOrEmpty(headers[1..], name)
  }

  /** Unicode `White_Space`, which `str::trim` removes. */
  predicate IsWhitespace(c: char) {
    || '\U{9}' <= c <= '\U{D}' || c == ' ' || c == '\U{85}' || c == '\U{A0}' || c == '\U{1680}'
    || '\U{2000}' <= c <= '\U{200A}' || c == '\U{2028}' || c == '\U{2029}' || c == '\U{202F}'
    || c == '\U{205F}' || c == '\U{3000}'
  }

  function TrimStart(s: string): string {
    if s != [] && IsWhitespace(s[0]) then TrimStart(s[1..]) else s
  }

  function TrimEnd(s: string): string {
    if s != [] && IsWhitespace(s[|s| - 1]) then TrimEnd(s[..|s| - 1]) else s
  }

  function Trim(s: string): string {
    TrimEnd(TrimStart(s))
  }

  /** `split(',')`: one piece more than there are commas. */
  function SplitComma(s: string): (r: seq<string>)
    ensures |r| > 0
  {
    if s == [] then [""]
    else
      var rest := SplitComma(s[1..]);
      if s[0] == ',' then [""] + rest else [[s[0]] + rest[0]] + rest[1..]
  }

  /** The trimmed, non-empty pieces. */
  function FieldsOf(pieces: seq<string>): (r: seq<string>) {
    if pieces == [] then []
    else
      var name, rest := Trim(pieces[0]), FieldsOf(pieces[1..]);
      if name == "" then rest else [name] + rest
  }

  /** The field names a Vary header lists. */
  function Fields(vary: string): seq<string> {
    FieldsOf(SplitComma(vary))
  }

  // ---------------------------------------------------------------- building the blob

  const NEVER: seq<byte> := [0xFF]

  function EncodeField(u: Utf8, name: string, value: string): (b: seq<byte>)
    ensures |b| >= 4
  {
    ToLE(|u.enc(name)|, 2) + u.enc(name) + ToLE(|u.enc(value)|, 2) + u.enc(value)
  }

  function EncodeFields(u: Utf8, names: seq<string>, headers: seq<Header>): (b: seq<byte>)
    ensures names != [] ==> |b| >= 4
  {
    if names == [] then []
    else EncodeField(u, names[0], GetOrEmpty(headers, names[0])) + EncodeFields(u, names[1..], headers)
  }

  /** The source's `build_vary_data`. */
  function VaryData(u: Utf8, vary: Option<string>, headers: seq<Header>): (r: Option<seq<byte>>) {
    if vary.None? then None
    else if Trim(vary.value) == "*" then Some(NEVER)
    else
      var data := EncodeFields(u, Fields(vary.value), headers);
      if data == [] then None else Some(data)
  }

  lemma {:induction false} EncodeFieldsAppend(u: Utf8, names: seq<string>, name: string, headers: seq<Header>)
    ensures EncodeFields(u, names + [name], headers)
            == EncodeFields(u, names, headers) + EncodeField(u, name, GetOrEmpty(headers, name))
  {
    if names == [] {
      assert names + [name] == [name] && [name][1..] == [];
    } else {
      assert (names + [name])[1..] == names[1..] + [name];
      EncodeFieldsAppend(u, names[1..], name, headers);
    }
  }

  lemma {:induction false} FieldsOfAppend(pieces: seq<string>, p: string)
    ensures FieldsOf(pieces + [p]) == if Trim(p) == "" then FieldsOf(pieces) else FieldsOf(pieces) + [Trim(p)]
  {
    if pieces == [] {
      assert pieces + [p] == [p] && [p][1..] == [];
    } else {
      assert (pieces + [p])[1..] == pieces[1..] + [p];
      FieldsOfAppend(pieces[1..], p);
    }
  }

  method BuildVaryData(u: Utf8, vary: Option<string>, headers: seq<Header>) returns (r: Option<seq<byte>>)
    ensures r == VaryData(u, vary, headers)
  {
    if vary.None? {
      return None;
    }
    if Trim(vary.value) == "*" {
      return Some(NEVER);
    }
    var data: seq<byte> := [];
    var pieces := SplitComma(vary.value);
    for i := 0 to |pieces|
      invariant data == EncodeFields(u, FieldsOf(pieces[..i]), headers)
    {
      assert pieces[..i + 1] == pieces[..i] + [pieces[i]];
      FieldsOfAppend(pieces[..i], pieces[i]);
      var name := Trim(pieces[i]);
      if name == "" {
        continue;
      }
      var value := GetOrEmpty(headers, name);
      EncodeFieldsAppend(u, FieldsOf(pieces[..i]), name, headers);
      data := data + (ToLE(|u.enc(name)|, 2) + u.enc(name) + ToLE(|u.enc(value)|, 2) + u.enc(value));
    }
    assert pieces[..|pieces|] == pieces;
    if data == [] {
      return None;
    }
    return Some(data);
  }

  // ---------------------------------------------------------------- matching

  /** A length-prefixed string at the front of `data`: the string and what follows it. */
  function ReadString(u: Utf8, data: seq<byte>): (r: Option<(string, seq<byte>)>)
    ensures r.Some? ==> |r.value.1| <= |data| - 2
  {
    if |data| < 2 then None
    else
      var n := FromLE(data[..2]);
      if 2 + n > |data| || u.dec(data[2..2 + n]).None? then None
      else Some((u.dec(data[2..2 + n]).value, data[2 + n..]))
  }

  /** The loop of `matches`, from some position on. */
  function MatchRest(u: Utf8, data: seq<byte>, headers: seq<Header>): (r: bool)
    decreases |data|
  {
    if data == [] then true
    else
      var name := ReadString(u, data);
      if name.None? then false
      else
        var value := ReadString(u, name.value.1);
        if value.None? then false
        else GetOrEmpty(headers, name.value.0) == value.value.0 && MatchRest(u, value.value.1, headers)
  }

  /** The source's `matches`. */
  function Matches(u: Utf8, data: seq<byte>, headers: seq<Header>): (r: bool) {
    data != NEVER && MatchRest(u, data, headers)
  }

  method ReadAt(u: Utf8, data: seq<byte>, pos: nat) returns (r: Option<(string, nat)>)
    requires pos <= |data|
    ensures ReadString(u, data[pos..]).None? <==> r.None?
    ensures r.Some? ==>
              && pos + 2 <= r.value.1 <= |data|
              && ReadString(u, data[pos..]) == Some((r.value.0, data[r.value.1..]))
  {
    if pos + 2 > |data| {
      return None;
    }
    assert data[pos..][..2] == [data[pos], data[pos + 1]];
    var n := FromLE([data[pos], data[pos + 1]]);
    if pos + 2 + n > |data| {
      return None;
    }
    assert data[pos..][2..2 + n] == data[pos + 2..pos + 2 + n];
    assert data[pos..][2 + n..] == data[pos + 2 + n..];
    var s := u.dec(data[pos + 2..pos + 2 + n]);
    if s.None? {
      return None;
    }
    return Some((s.value, pos + 2 + n));
  }

  method CheckMatch(u: Utf8, data: seq<byte>, headers: seq<Header>) returns (r: bool)
    ensures r == Matches(u, data, headers)
  {
    if data == NEVER {
      return false;
    }
    var pos := 0;
    assert data[0..] == data;
    while pos < |data|
      invariant pos <= |data|
      invariant MatchRest(u, data, headers) == MatchRest(u, data[pos..], headers)
    {
      var name := ReadAt(u, data, pos);
      if name.None? {
        return false;
      }
      var value := ReadAt(u, data, name.value.1);
      if value.None? {
        return false;
      }
      if GetOrEmpty(headers, name.value.0) != value.value.0 {
        return false;
      }
      pos := value.value.1;
    }
    return true;
  }

  // ---------------------------------------------------------------- what matching means

  /** Fits the two-byte length. */
  predicate Short(u: Utf8, s: string) {
    |u.enc(s)| < 65536
  }

  lemma ReadBack(u: Utf8, s: string, rest: seq<byte>)
    requires Inverse(u) && Short(u, s)
    ensures ReadString(u, ToLE(|u.enc(s)|, 2) + u.enc(s) + rest) == Some((s, rest))
  {
    var data := ToLE(|u.enc(s)|, 2) + u.enc(s) + rest;
    RoundTrip16(|u.enc(s)|);
    assert data[..2] == ToLE(|u.enc(s)|, 2);
    assert data[2..2 + |u.enc(s)|] == u.enc(s);
    assert data[2 + |u.enc(s)|..] == rest;
  }

  /** A string whose length is truncated is never read back as itself. */
  lemma ReadBackLong(u: Utf8, s: string, rest: seq<byte>)
    requires Inverse(u) && !Short(u, s)
    ensures var r := ReadString(u, ToLE(|u.enc(s)|, 2) + u.enc(s) + rest); r.Some? ==> r.value.0 != s
  {
    var data := ToLE(|u.enc(s)|, 2) + u.enc(s) + rest;
    RoundTrip16(|u.enc(s)|);
    assert data[..2] == ToLE(|u.enc(s)|, 2);
    var n := FromLE(data[..2]);
    assert |data[2..2 + n]| != |u.enc(s)|;
  }

  lemma MatchField(u: Utf8, name: string, value: string, rest: seq<byte>, headers: seq<Header>)
    requires Inverse(u) && Short(u, name) && Short(u, value)
    ensures MatchRest(u, EncodeField(u, name, value) + rest, headers)
            <==> GetOrEmpty(headers, name) == value && MatchRest(u, rest, headers)
  {
    var tail := ToLE(|u.enc(value)|, 2) + u.enc(value) + rest;
    assert EncodeField(u, name, value) + rest == ToLE(|u.enc(name)|, 2) + u.enc(name) + tail;
    ReadBack(u, name, tail);
    ReadBack(u, value, rest);
  }

  lemma MatchLongField(u: Utf8, name: string, rest: seq<byte>, headers: seq<Header>)
    requires Inverse(u) && Short(u, name) && !Short(u, GetOrEmpty(headers, name))
    ensures !MatchRest(u, EncodeField(u, name, GetOrEmpty(headers, name)) + rest, headers)
  {
    var value := GetOrEmpty(headers, name);
    var tail := ToLE(|u.enc(value)|, 2) + u.enc(value) + rest;
    assert EncodeField(u, name, value) + rest == ToLE(|u.enc(name)|, 2) + u.enc(name) + tail;
    ReadBack(u, name, tail);
    ReadBackLong(u, value, rest);
  }

  /** The two requests carry the same value, or lack the header alike, for every name. */
  ghost predicate Agree(names: seq<string>, a: seq<Header>, b: seq<Header>) {
    forall i | 0 <= i < |names| :: GetOrEmpty(a, names[i]) == GetOrEmpty(b, names[i])
  }

  ghost predicate ShortNames(u: Utf8, names: seq<string>) {
    forall i | 0 <= i < |names| :: Short(u, names[i])
  }

  ghost predicate ShortValues(u: Utf8, names: seq<string>, headers: seq<Header>) {
    forall i | 0 <= i < |names| :: Short(u, GetOrEmpty(headers, names[i]))
  }

  lemma {:induction false} MatchFields(u: Utf8, names: seq<string>, original: seq<Header>, headers: seq<Header>)
    requires Inverse(u) && ShortNames(u, names) && ShortValues(u, names, original)
    ensures MatchRest(u, EncodeFields(u, names, original), headers) <==> Agree(names, original, headers)
  {
    if names != [] {
      var rest := names[1..];
      assert forall i | 0 <= i < |rest| :: rest[i] == names[i + 1];
      MatchFields(u, rest, original, headers);
      MatchField(u, names[0], GetOrEmpty(original, names[0]), EncodeFields(u, rest, original), headers);
      AgreeCons(names, original, headers);
    }
  }

  lemma AgreeCons(names: seq<string>, a: seq<Header>, b: seq<Header>)
    requires names != []
    ensures Agree(names, a, b) <==> GetOrEmpty(a, names[0]) == GetOrEmpty(b, names[0]) && Agree(names[1..], a, b)
  {
    var rest := names[1..];
    if GetOrEmpty(a, names[0]) == GetOrEmpty(b, names[0]) && Agree(rest, a, b) {
      forall i | 0 <= i < |names|
        ensures GetOrEmpty(a, names[i]) == GetOrEmpty(b, names[i])
      {
        assert i > 0 ==> rest[i - 1] == names[i];
      }
    }
  }

  /**
   * A stored response with a Vary header matches a request exactly when the header is not
   * `*` and the request agrees with the original one on every listed field.
   */
  lemma MatchesExactly(u: Utf8, vary: string, original: seq<Header>, headers: seq<Header>)
    requires Inverse(u) && ShortNames(u, Fields(vary)) && ShortValues(u, Fields(vary), original)
    ensures var data := VaryData(u, Some(vary), original);
            data.None? || Matches(u, data.value, headers) <==>
                Trim(vary) != "*" && Agree(Fields(vary), original, headers)
  {
    MatchFields(u, Fields(vary), original, headers);
  }

  lemma {:induction false} LongNeverMatches(u: Utf8, names: seq<string>, headers: seq<Header>)
    requires Inverse(u) && ShortNames(u, names) && !ShortValues(u, names, headers)
    ensures !MatchRest(u, EncodeFields(u, names, headers), headers)
  {
    var rest := names[1..];
    assert forall i | 0 <= i < |rest| :: rest[i] == names[i + 1];
    var tail := EncodeFields(u, rest, headers);
    if Short(u, GetOrEmpty(headers, names[0])) {
      assert !ShortValues(u, rest, headers) by {
        var i :| 0 <= i < |names| && !Short(u, GetOrEmpty(headers, names[i]));
        assert rest[i - 1] == names[i];
      }
      LongNeverMatches(u, rest, headers);
      MatchField(u, names[0], GetOrEmpty(headers, names[0]), tail, headers);
    } else {
      MatchLongField(u, names[0], tail, headers);
    }
  }

  /**
   * A response matches the very request it answered exactly when its header is not `*` on its
   * own and every stored value fits its length.
   */
  lemma SelfMatch(u: Utf8, vary: string, headers: seq<Header>)
    requires Inverse(u) && (Trim(vary) == "*" || ShortNames(u, Fields(vary)))
    ensures var data := VaryData(u, Some(vary), headers);
            data.None? || Matches(u, data.value, headers) <==>
            Trim(vary) != "*" && ShortValues(u, Fields(vary), headers)
  {
    if Trim(vary) == "*" {
      assert !Matches(u, VaryData(u, Some(vary), headers).value, headers);
    } else if ShortValues(u, Fields(vary), headers) {
      MatchesExactly(u, vary, headers, headers);
    } else {
      LongNeverMatches(u, Fields(vary), headers);
    }
  }

  /**
   * A header that is `*` on its own never matches, whatever the lengths. When they fit, no
   * other header never matches: a `*` inside a list is an ordinary field name.
   */
  lemma NeverMatchesIffStar(u: Utf8, vary: string, original: seq<Header>)
    requires Inverse(u)
    ensures var data := VaryData(u, Some(vary), original);
            var never := data.Some? && forall headers :: !Matches(u, data.value, headers);
            && (Trim(vary) == "*" ==> never)
            && (ShortNames(u, Fields(vary)) && ShortValues(u, Fields(vary), original) && never ==> Trim(vary) == "*")
  {
    if Trim(vary) != "*" && ShortNames(u, Fields(vary)) && ShortValues(u, Fields(vary), original) {
      SelfMatch(u, vary, original);
    }
  }

  /** At least one byte and at most four for each character, as in UTF-8. */
  ghost predicate ByteSized(u: Utf8) {
    forall s :: |s| <= |u.enc(s)| <= 4 * |s|
  }

  /** A request with a value of 65536 characters does not match the response stored for it. */
  lemma LongValueMisses(u: Utf8)
    requires Inverse(u) && ByteSized(u)
    ensures var headers := [Header("a", seq(65536, _ => 'x'))];
            var data := VaryData(u, Some("a"), headers);
            data.Some? && !Matches(u, data.value, headers)
  {
    var headers := [Header("a", seq(65536, _ => 'x'))];
    SingleField();
    assert EqIgnoreAsciiCase("a", "a");
    assert GetOrEmpty(headers, "a") == headers[0].value;
    assert Short(u, "a") && !Short(u, headers[0].value);
    assert !ShortValues(u, ["a"], headers) by {
      assert !Short(u, GetOrEmpty(headers, ["a"][0]));
    }
    SelfMatch(u, "a", headers);
  }

  lemma SingleField()
    ensures Fields("a") == ["a"] && Trim("a") == "a"
  {
    assert "a"[1..] == "";
    var rest := SplitComma("");
    assert rest[1..] == [] && ['a'] + rest[0] == "a";
    assert SplitComma("a") == ["a"];
    assert ["a"][1..] == [];
  }

  /** `Vary: a,*` matches: only a header that is `*` on its own is taken for it. */
  lemma StarInListMatches(u: Utf8)
    requires Inverse(u) && ByteSized(u)
    ensures var data := VaryData(u, Some("a,*"), []); data.Some? && Matches(u, data.value, [])
  {
    ListWithStar();
    assert forall i | 0 <= i < 2 :: Short(u, ["a", "*"][i]);
    assert Short(u, "");
    SelfMatch(u, "a,*", []);
  }

  lemma ListWithStar()
    ensures Fields("a,*") == ["a", "*"] && Trim("a,*") == "a,*"
  {
    assert "a,*"[1..] == ",*" && ",*"[1..] == "*" && "*"[1..] == "";
    var none := SplitComma("");
    assert none[1..] == [] && ['*'] + none[0] == "*";
    var star := SplitComma("*");
    assert star == ["*"];
    var rest := SplitComma(",*");
    assert rest == ["", "*"];
    assert rest[1..] == ["*"] && ['a'] + rest[0] == "a";
    assert SplitComma("a,*") == ["a", "*"];
    assert ["a", "*"][1..] == ["*"] && ["*"][1..] == [];
    assert FieldsOf(["*"]) == ["*"];
  }
}
