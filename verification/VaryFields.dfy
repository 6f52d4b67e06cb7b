/**
 * What a Vary header lists and what a request carries, said without the functions that compute
 * it: pieces between commas, whitespace around them, and header names up to ASCII case
 * (crates/rv-http/src/vary.rs, crates/rv-http/src/header.rs).
 */
module VaryFields {
  import opened Types
  import opened Vary

  // ---------------------------------------------------------------- whitespace

  /** The 25 code points with the Unicode property `White_Space`. */
  const WHITE_SPACE: set<int> :=
    {0x09, 0x0A, 0x0B, 0x0C, 0x0D, 0x20, 0x85, 0xA0, 0x1680, 0x2000, 0x2001, 0x2002, 0x2003, 0x2004, 0x2005,
     0x2006, 0x2007, 0x2008, 0x2009, 0x200A, 0x2028, 0x2029, 0x202F, 0x205F, 0x3000}

  lemma WhitespaceExact(c: char)
    ensures IsWhitespace(c) <==> c as int in WHITE_SPACE
  {
  }

  ghost predicate AllWhite(s: string) {
    forall i | 0 <= i < |s| :: IsWhitespace(s[i])
  }

  /** No whitespace at either end. */
  ghost predicate Bare(s: string) {
    s != "" ==> !IsWhitespace(s[0]) && !IsWhitespace(s[|s| - 1])
  }

  /** `t` is `s` without the whitespace around it. */
  ghost predicate Padded(s: string, x: string, t: string, y: string) {
    s == x + t + y && AllWhite(x) && AllWhite(y) && Bare(t)
  }

  lemma {:induction false} TrimStartPads(s: string) returns (x: string)
    ensures s == x + TrimStart(s) && AllWhite(x)
    ensures TrimStart(s) != "" ==> !IsWhitespace(TrimStart(s)[0])
  {
    if s != [] && IsWhitespace(s[0]) {
      var rest := TrimStartPads(s[1..]);
      x := [s[0]] + rest;
      assert s == [s[0]] + s[1..];
    } else {
      x := "";
    }
  }

  lemma {:induction false} TrimEndPads(s: string) returns (y: string)
    ensures s == TrimEnd(s) + y && AllWhite(y)
    ensures TrimEnd(s) != "" ==> !IsWhitespace(TrimEnd(s)[|TrimEnd(s)| - 1])
  {
    if s != [] && IsWhitespace(s[|s| - 1]) {
      var rest := TrimEndPads(s[..|s| - 1]);
      y := rest + [s[|s| - 1]];
      assert s == s[..|s| - 1] + [s[|s| - 1]];
    } else {
      y := "";
    }
  }

  /** Trimming takes whitespace away at both ends, all of it and nothing else. */
  lemma TrimPads(s: string) returns (x: string, y: string)
    ensures Padded(s, x, Trim(s), y)
  {
    x := TrimStartPads(s);
    y := TrimEndPads(TrimStart(s));
    var t := TrimStart(s);
    assert t == Trim(s) + y;
    assert s == x + (Trim(s) + y) == x + Trim(s) + y;
    assert Trim(s) != "" ==> Trim(s)[0] == t[0];
  }

  /** There is only one way to take it away. */
  lemma PaddedOnce(s: string, x: string, t: string, y: string, x': string, t': string, y': string)
    requires Padded(s, x, t, y) && Padded(s, x', t', y')
    ensures t == t'
  {
    if t == "" || t' == "" {
      WhiteHasNoCore(s, x, t, y);
      WhiteHasNoCore(s, x', t', y');
    } else {
      SameStart(s, x, t, y, x', t', y');
      SameStart(s, x', t', y', x, t, y);
      SameEnd(s, x, t, y, x', t', y');
      SameEnd(s, x', t', y', x, t, y);
      assert t == s[|x|..|x| + |t|] && t' == s[|x'|..|x'| + |t'|];
    }
  }

  lemma WhiteHasNoCore(s: string, x: string, t: string, y: string)
    requires Padded(s, x, t, y)
    ensures AllWhite(s) <==> t == ""
  {
    if t == "" {
      assert s == x + y;
    } else {
      assert s[|x|] == t[0];
    }
  }

  /** Where a padded string has whitespace and where it has none. */
  lemma PaddedAt(s: string, x: string, t: string, y: string, i: nat)
    requires Padded(s, x, t, y) && i < |s|
    ensures i < |x| || |x| + |t| <= i ==> IsWhitespace(s[i])
    ensures t != "" && (i == |x| || i == |x| + |t| - 1) ==> !IsWhitespace(s[i])
  {
  }

  lemma SameStart(s: string, x: string, t: string, y: string, x': string, t': string, y': string)
    requires Padded(s, x, t, y) && Padded(s, x', t', y') && t != "" && t' != ""
    ensures |x| >= |x'|
  {
    PaddedAt(s, x, t, y, |x|);
    PaddedAt(s, x', t', y', |x|);
  }

  lemma SameEnd(s: string, x: string, t: string, y: string, x': string, t': string, y': string)
    requires Padded(s, x, t, y) && Padded(s, x', t', y') && t != "" && t' != ""
    ensures |x| + |t| <= |x'| + |t'|
  {
    PaddedAt(s, x, t, y, |x| + |t| - 1);
    PaddedAt(s, x', t', y', |x| + |t| - 1);
  }

  lemma TrimExact(s: string, x: string, t: string, y: string)
    requires Padded(s, x, t, y)
    ensures Trim(s) == t
  {
    var x', y' := TrimPads(s);
    PaddedOnce(s, x, t, y, x', Trim(s), y');
  }

  // ---------------------------------------------------------------- pieces between commas

  ghost predicate NoComma(pieces: seq<string>) {
    forall i | 0 <= i < |pieces| :: ',' !in pieces[i]
  }

  /** The pieces with a comma between each two. */
  ghost function Joined(pieces: seq<string>): string
    requires pieces != []
  {
    if |pieces| == 1 then pieces[0] else pieces[0] + "," + Joined(pieces[1..])
  }

  lemma {:induction false} SplitJoins(s: string)
    ensures NoComma(SplitComma(s)) && Joined(SplitComma(s)) == s
  {
    if s != "" {
      var rest := SplitComma(s[1..]);
      SplitJoins(s[1..]);
      assert s == [s[0]] + s[1..];
      if s[0] == ',' {
        assert ([""] + rest)[1..] == rest;
        assert Joined([""] + rest) == "" + "," + Joined(rest);
      } else {
        var pieces := [[s[0]] + rest[0]] + rest[1..];
        assert pieces[1..] == rest[1..];
        assert NoComma(pieces);
      }
    }
  }

  lemma {:induction false} JoinedSplits(pieces: seq<string>)
    requires pieces != [] && NoComma(pieces)
    ensures SplitComma(Joined(pieces)) == pieces
    decreases |pieces|, |pieces[0]|
  {
    var s := Joined(pieces);
    if pieces[0] == "" {
      if |pieces| == 1 {
        assert s == "";
      } else {
        JoinedSplits(pieces[1..]);
        assert s[0] == ',' && s[1..] == Joined(pieces[1..]);
        assert pieces == [""] + pieces[1..];
      }
    } else {
      var c, shorter := pieces[0][0], [pieces[0][1..]] + pieces[1..];
      assert pieces[0] == [c] + pieces[0][1..];
      assert shorter[1..] == pieces[1..];
      JoinedSplits(shorter);
      assert s[0] == c && s[1..] == Joined(shorter);
      assert pieces == [[c] + shorter[0]] + shorter[1..];
    }
  }

  // ---------------------------------------------------------------- the fields of a header

  /** `name` is what is left of a piece without the whitespace around it. */
  ghost predicate CoreOf(piece: string, name: string) {
    exists x, y :: Padded(piece, x, name, y)
  }

  lemma CoreExact(piece: string, name: string)
    ensures CoreOf(piece, name) <==> Trim(piece) == name
  {
    var x0, y0 := TrimPads(piece);
    if x, y :| Padded(piece, x, name, y) {
      TrimExact(piece, x, name, y);
    }
  }

  /** `names` are the pieces at the positions `idx`, bare and not empty; the other pieces are blank. */
  ghost predicate Lists(pieces: seq<string>, names: seq<string>, idx: seq<nat>) {
    && |idx| == |names| && (pieces == [] ==> idx == [])
    && (forall j, k | 0 <= j < k < |idx| :: idx[j] < idx[k])
    && (forall k | 0 <= k < |idx| :: idx[k] < |pieces| && names[k] != "" && CoreOf(pieces[idx[k]], names[k]))
    && (forall i: nat | i < |pieces| && i !in idx :: AllWhite(pieces[i]))
  }

  lemma BlankTrims(s: string)
    ensures Trim(s) == "" <==> AllWhite(s)
  {
    var x, y := TrimPads(s);
    WhiteHasNoCore(s, x, Trim(s), y);
  }

  lemma ListsAppend(pieces: seq<string>, names: seq<string>, idx: seq<nat>, p: string)
    requires Lists(pieces, names, idx)
    ensures Trim(p) == "" ==> Lists(pieces + [p], names, idx)
    ensures Trim(p) != "" ==> Lists(pieces + [p], names + [Trim(p)], idx + [|pieces|])
  {
    BlankTrims(p);
    CoreExact(p, Trim(p));
    assert forall k | 0 <= k < |idx| :: (pieces + [p])[idx[k]] == pieces[idx[k]];
    assert forall i :: i in idx + [|pieces|] <==> i in idx || i == |pieces|;
  }

  lemma {:induction false} FieldsListed(pieces: seq<string>) returns (idx: seq<nat>)
    ensures Lists(pieces, FieldsOf(pieces), idx)
  {
    if pieces == [] {
      idx := [];
    } else {
      var n := |pieces| - 1;
      InitAndLast(pieces);
      idx := FieldsListed(pieces[..n]);
      FieldsOfLast(pieces);
      ListsAppend(pieces[..n], FieldsOf(pieces[..n]), idx, pieces[n]);
      if Trim(pieces[n]) != "" {
        idx := idx + [n];
      }
    }
  }

  lemma ListsInit(pieces: seq<string>, names: seq<string>, idx: seq<nat>)
    requires Lists(pieces, names, idx) && pieces != []
    ensures var n, m := |pieces| - 1, |idx| - 1;
            if n in idx then
              && m >= 0 && idx[m] == n && names[m] == Trim(pieces[n]) != "" && Lists(pieces[..n], names[..m], idx[..m])
            else Trim(pieces[n]) == "" && Lists(pieces[..n], names, idx)
  {
    var n, m := |pieces| - 1, |idx| - 1;
    if n in idx {
      var k :| 0 <= k < |idx| && idx[k] == n;
      assert k == m && (m > 0 ==> idx[0] < idx[m]);
      CoreExact(pieces[n], names[m]);
      assert forall i | i in idx && i != n :: i in idx[..m];
    } else {
      assert idx != [] ==> idx[0] in idx;
      BlankTrims(pieces[n]);
    }
  }

  lemma InitAndLast(names: seq<string>)
    requires names != []
    ensures names == names[..|names| - 1] + [names[|names| - 1]]
  {
  }

  lemma FieldsOfLast(pieces: seq<string>)
    requires pieces != []
    ensures var init, name := pieces[..|pieces| - 1], Trim(pieces[|pieces| - 1]);
            FieldsOf(pieces) == if name == "" then FieldsOf(init) else FieldsOf(init) + [name]
  {
    assert pieces == pieces[..|pieces| - 1] + [pieces[|pieces| - 1]];
    FieldsOfAppend(pieces[..|pieces| - 1], pieces[|pieces| - 1]);
  }

  lemma {:induction false} ListedFields(pieces: seq<string>, names: seq<string>, idx: seq<nat>)
    requires Lists(pieces, names, idx)
    ensures FieldsOf(pieces) == names
  {
    if pieces != [] {
      var n, m := |pieces| - 1, |idx| - 1;
      FieldsOfLast(pieces);
      ListsInit(pieces, names, idx);
      if n in idx {
        ListedFields(pieces[..n], names[..m], idx[..m]);
        InitAndLast(names);
      } else {
        ListedFields(pieces[..n], names, idx);
      }
    }
  }

  /**
   * The fields of a header are exactly the non-empty pieces between its commas, in their order
   * and without the whitespace around them.
   */
  lemma FieldsExact(pieces: seq<string>, names: seq<string>)
    requires pieces != [] && NoComma(pieces)
    ensures Fields(Joined(pieces)) == names <==> exists idx :: Lists(pieces, names, idx)
  {
    JoinedSplits(pieces);
    var idx0 := FieldsListed(pieces);
    if idx :| Lists(pieces, names, idx) {
      ListedFields(pieces, names, idx);
    }
  }

  /** Every header is made of such pieces. */
  lemma PiecesExist(vary: string) returns (pieces: seq<string>)
    ensures pieces != [] && NoComma(pieces) && Joined(pieces) == vary
  {
    pieces := SplitComma(vary);
    SplitJoins(vary);
  }

  // ---------------------------------------------------------------- whitespace does not matter

  /** `padded` is `pieces` with whitespace around each. */
  ghost predicate PaddedPieces(pieces: seq<string>, padded: seq<string>) {
    && |pieces| == |padded|
    && forall i | 0 <= i < |pieces| ::
         exists x, y :: padded[i] == x + pieces[i] + y && AllWhite(x) && AllWhite(y)
  }

  lemma PaddingTrims(s: string, x: string, y: string)
    requires AllWhite(x) && AllWhite(y)
    ensures Trim(x + s + y) == Trim(s)
  {
    var x', y' := TrimPads(s);
    assert x + s + y == (x + x') + Trim(s) + (y' + y);
    TrimExact(x + s + y, x + x', Trim(s), y' + y);
  }

  lemma {:induction false} SameTrims(pieces: seq<string>, padded: seq<string>)
    requires |pieces| == |padded| && forall i | 0 <= i < |pieces| :: Trim(pieces[i]) == Trim(padded[i])
    ensures FieldsOf(pieces) == FieldsOf(padded)
  {
    if pieces != [] {
      assert Trim(pieces[0]) == Trim(padded[0]);
      SameTrims(pieces[1..], padded[1..]);
    }
  }

  /** Whitespace around a comma never changes the fields. */
  lemma PaddingIrrelevant(pieces: seq<string>, padded: seq<string>)
    requires pieces != [] && NoComma(pieces) && PaddedPieces(pieces, padded)
    ensures padded != [] && Fields(Joined(padded)) == Fields(Joined(pieces))
  {
    forall i | 0 <= i < |pieces|
      ensures Trim(pieces[i]) == Trim(padded[i]) && ',' !in padded[i]
    {
      var x, y :| padded[i] == x + pieces[i] + y && AllWhite(x) && AllWhite(y);
      PaddingTrims(pieces[i], x, y);
      assert !IsWhitespace(',');
    }
    JoinedSplits(pieces);
    JoinedSplits(padded);
    SameTrims(pieces, padded);
  }

  // ---------------------------------------------------------------- header names

  /** The same character, or the same ASCII letter in the other case. */
  predicate CaseVariant(c: char, d: char) {
    || c == d
    || ('A' <= c <= 'Z' && d as int == c as int + 32)
    || ('A' <= d <= 'Z' && c as int == d as int + 32)
  }

  predicate SameName(a: string, b: string) {
    |a| == |b| && forall i | 0 <= i < |a| :: CaseVariant(a[i], b[i])
  }

  lemma SameNameExact(a: string, b: string)
    ensures EqIgnoreAsciiCase(a, b) <==> SameName(a, b)
  {
    if |a| == |b| {
      forall i | 0 <= i < |a|
        ensures LowerAscii(a[i]) == LowerAscii(b[i]) <==> CaseVariant(a[i], b[i])
      {
        LowerExact(a[i], b[i]);
      }
    }
  }

  lemma LowerExact(c: char, d: char)
    ensures LowerAscii(c) == LowerAscii(d) <==> CaseVariant(c, d)
  {
  }

  /** `v` is the value of the first header named `name`, or empty when there is none. */
  ghost predicate Carries(headers: seq<Header>, name: string, v: string) {
    || (exists i | 0 <= i < |headers| ::
          SameName(headers[i].name, name) && v == headers[i].value
          && forall j | 0 <= j < i :: !SameName(headers[j].name, name))
    || (v == "" && forall i | 0 <= i < |headers| :: !SameName(headers[i].name, name))
  }

  /** Position `i` of `headers` is the first one named `name`. */
  ghost predicate FirstAt(headers: seq<Header>, name: string, i: nat) {
    i < |headers| && SameName(headers[i].name, name) && forall j | 0 <= j < i :: !SameName(headers[j].name, name)
  }

  lemma {:induction false} GetFirst(headers: seq<Header>, name: string)
    ensures forall i: nat | FirstAt(headers, name, i) :: GetOrEmpty(headers, name) == headers[i].value
    ensures (forall i | 0 <= i < |headers| :: !SameName(headers[i].name, name)) ==> GetOrEmpty(headers, name) == ""
    ensures (exists i: nat :: FirstAt(headers, name, i)) || forall i | 0 <= i < |headers| ::
              !SameName(headers[i].name, name)
  {
    if headers != [] {
      var rest := headers[1..];
      assert forall i | 0 < i < |headers| :: headers[i] == rest[i - 1];
      SameNameExact(headers[0].name, name);
      GetFirst(rest, name);
      if SameName(headers[0].name, name) {
        assert FirstAt(headers, name, 0);
      } else {
        forall i: nat | FirstAt(headers, name, i)
          ensures FirstAt(rest, name, i - 1)
        {
          assert forall j | 0 <= j < i - 1 :: rest[j] == headers[j + 1];
        }
        if i: nat :| FirstAt(rest, name, i) {
          assert FirstAt(headers, name, i + 1);
        }
      }
    }
  }

  lemma GetExact(headers: seq<Header>, name: string, v: string)
    ensures GetOrEmpty(headers, name) == v <==> Carries(headers, name, v)
  {
    GetFirst(headers, name);
    if i: nat :| FirstAt(headers, name, i) {
      assert Carries(headers, name, headers[i].value);
      if Carries(headers, name, v) {
        var k :| 0 <= k < |headers| && SameName(headers[k].name, name) && v == headers[k].value
                 && forall j | 0 <= j < k :: !SameName(headers[j].name, name);
        assert FirstAt(headers, name, k);
      }
    }
  }

  /** Names that differ only in ASCII case name the same header. */
  lemma {:induction false} CaseIrrelevant(headers: seq<Header>, a: string, b: string)
    requires SameName(a, b)
    ensures GetOrEmpty(headers, a) == GetOrEmpty(headers, b)
  {
    if headers != [] {
      SameNameExact(a, b);
      assert EqIgnoreAsciiCase(headers[0].name, a) <==> EqIgnoreAsciiCase(headers[0].name, b);
      CaseIrrelevant(headers[1..], a, b);
    }
  }

  // ---------------------------------------------------------------- what matching means

  /** The two requests carry the same for `name`. */
  ghost predicate SameFor(name: string, a: seq<Header>, b: seq<Header>) {
    exists v :: Carries(a, name, v) && Carries(b, name, v)
  }

  lemma SameForExact(name: string, a: seq<Header>, b: seq<Header>)
    ensures SameFor(name, a, b) <==> GetOrEmpty(a, name) == GetOrEmpty(b, name)
  {
    GetExact(a, name, GetOrEmpty(a, name));
    GetExact(b, name, GetOrEmpty(a, name));
    if v :| Carries(a, name, v) && Carries(b, name, v) {
      GetExact(a, name, v);
      GetExact(b, name, v);
    }
  }

  /**
   * A response whose Vary header is made of `pieces`, of which `names` are the bare non-empty
   * ones, matches a request exactly when the header is not a lone `*` and the request carries
   * what the original one did, for each of the names.
   */
  lemma MatchesByMeaning(u: Utf8, pieces: seq<string>, names: seq<string>, idx: seq<nat>, original: seq<Header>,
                         headers: seq<Header>)
    requires Inverse(u) && pieces != [] && NoComma(pieces) && Lists(pieces, names, idx)
    requires ShortNames(u, names) && ShortValues(u, names, original)
    ensures var data := VaryData(u, Some(Joined(pieces)), original);
            data.None? || Matches(u, data.value, headers) <==>
            !(|pieces| == 1 && names == ["*"]) && forall k | 0 <= k < |names| :: SameFor(names[k], original, headers)
  {
    FieldsExact(pieces, names);
    MatchesExactly(u, Joined(pieces), original, headers);
    LoneStar(pieces, names, idx);
    forall k | 0 <= k < |names|
      ensures SameFor(names[k], original, headers) <==> GetOrEmpty(original, names[k]) == GetOrEmpty(headers, names[k])
    {
      SameForExact(names[k], original, headers);
    }
  }

  /** A header is `*` but for whitespace exactly when it is one piece that lists `*`. */
  lemma LoneStar(pieces: seq<string>, names: seq<string>, idx: seq<nat>)
    requires pieces != [] && NoComma(pieces) && Lists(pieces, names, idx)
    ensures Trim(Joined(pieces)) == "*" <==> |pieces| == 1 && names == ["*"]
  {
    if |pieces| == 1 {
      ListedFields(pieces, names, idx);
      OnePiece(pieces);
    } else {
      JoinedHasComma(pieces);
      CommaKept(Joined(pieces));
    }
  }

  lemma OnePiece(pieces: seq<string>)
    requires |pieces| == 1
    ensures FieldsOf(pieces) == if Trim(pieces[0]) == "" then [] else [Trim(pieces[0])]
  {
    assert pieces[1..] == [];
  }

  lemma JoinedHasComma(pieces: seq<string>)
    requires |pieces| > 1
    ensures ',' in Joined(pieces)
  {
    assert Joined(pieces)[|pieces[0]|] == ',';
  }

  lemma CommaKept(s: string)
    requires ',' in s
    ensures ',' in Trim(s)
  {
    var x, y := TrimPads(s);
    assert !IsWhitespace(',');
  }

  // ---------------------------------------------------------------- an example

  lemma TwoFields()
    ensures Fields("a, b") == ["a", "b"] && Trim("a, b") != "*"
  {
    var pieces, names := ["a", " b"], ["a", "b"];
    assert pieces[1..] == [" b"] && Joined(pieces) == "a, b";
    assert Padded("a", "", "a", "") && Padded(" b", " ", "b", "");
    assert CoreOf(pieces[0], "a") && CoreOf(pieces[1], "b");
    assert Lists(pieces, names, [0, 1]) by {
      assert [0, 1][0] == 0 && [0, 1][1] == 1;
    }
    FieldsExact(pieces, names);
    LoneStar(pieces, names, [0, 1]);
  }

  /** A request with one header, whatever the case of its name. */
  lemma OneHeader(name: string, value: string)
    requires name == "b" || name == "B"
    ensures GetOrEmpty([Header(name, value)], "a") == "" && GetOrEmpty([Header(name, value)], "b") == value
  {
    var headers := [Header(name, value)];
    assert headers[1..] == [];
    assert LowerAscii(name[0]) == 'b' != LowerAscii("a"[0]);
  }

  /** `Vary: a, b` lists `a` and `b`: a response stored for `b: 1` is served to `B: 1`, not to `b: 2`. */
  lemma SpaceAfterComma(u: Utf8)
    requires Inverse(u) && ByteSized(u)
    ensures var data := VaryData(u, Some("a, b"), [Header("b", "1")]);
            && data.Some? && Matches(u, data.value, [Header("B", "1")]) && !Matches(u, data.value, [Header("b", "2")])
  {
    TwoFields();
    OneHeader("b", "1");
    assert ShortNames(u, ["a", "b"]) && ShortValues(u, ["a", "b"], [Header("b", "1")]);
    ServedByValue(u, "B", "1");
    ServedByValue(u, "b", "2");
  }

  lemma ServedByValue(u: Utf8, name: string, value: string)
    requires Inverse(u) && Fields("a, b") == ["a", "b"] && Trim("a, b") != "*" && (name == "b" || name == "B")
    requires ShortNames(u, ["a", "b"]) && ShortValues(u, ["a", "b"], [Header("b", "1")])
    ensures var data := VaryData(u, Some("a, b"), [Header("b", "1")]);
            data.Some? && (Matches(u, data.value, [Header(name, value)]) <==> value == "1")
  {
    var names, original, headers := ["a", "b"], [Header("b", "1")], [Header(name, value)];
    OneHeader("b", "1");
    OneHeader(name, value);
    assert Agree(names, original, headers) <==> value == "1" by {
      assert names[0] == "a" && names[1] == "b";
    }
    MatchesExactly(u, "a, b", original, headers);
  }
}
