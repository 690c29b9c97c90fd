/**
 * Which buffers the parser leaves: parse_string reads its first byte without a test, and parse_object calls it behind a
 * comma without one (cJSON.c). The byte behind the buffer is read exactly when the buffer is the beginning of a text that
 * goes on, cut off right behind a comma between two members.
 */
module JsonOverread {
  import opened Bytes
  import opened JsonValue
  import opened JsonParser

  /** Another member, and the brace that closes its object: `"":0}`. */
  const MEMBER: bytes := [QUOTE, QUOTE, COLON, ZERO, RBRACE]

  predicate EndsInComma(c: bytes) { c != [] && c[|c| - 1] == COMMA }

  /** Parsing at `o` can start inside the buffer, or behind a comma that ends it. */
  predicate InReach(c: bytes, o: nat) { o < |c| || (o == |c| && EndsInComma(c)) }

  // ----- only a comma at the end leads out -----

  lemma {:induction false} ValueOverread(c: bytes, o: nat, depth: int)
    requires ParseValue(c, o, depth).Overread?
    ensures EndsInComma(c)
    decreases |c| - o, 1
  {
    hide ParseMembers, ParseItems, SkipBlanks;
    var first := SkipBlanks(c, o + 1);
    if c[o] == LBRACKET { ItemsOverread(c, first, depth + 1); } else { MembersOverread(c, first, depth + 1); }
  }

  lemma {:induction false} ItemsOverread(c: bytes, o: nat, depth: int)
    requires ParseItems(c, o, depth).Overread? && o <= |c|
    ensures EndsInComma(c)
    decreases |c| - o, 2
  {
    hide ParseValue, SkipBlanks;
    var v := ParseValue(c, SkipBlanks(c, o), depth);
    if v.Ok? { ItemsOverread(c, SkipBlanks(c, v.next) + 1, depth); } else { ValueOverread(c, SkipBlanks(c, o), depth); }
  }

  lemma {:induction false} MembersOverread(c: bytes, o: nat, depth: int)
    requires ParseMembers(c, o, depth).Overread? && InReach(c, o)
    ensures EndsInComma(c)
    decreases |c| - o, 2
  {
    hide ParseValue, ParseString, SkipBlanks;
    var m := ParseMember(c, o, depth);
    if m.Ok? {
      MembersOverread(c, SkipBlanks(c, m.next) + 1, depth);
    } else {
      var key := ParseString(c, SkipBlanks(c, o));
      if key.Ok? { ValueOverread(c, SkipBlanks(c, SkipBlanks(c, key.next) + 1), depth); }
    }
  }

  // ----- up to that comma, the text that goes on is parsed alike -----

  /** `d` begins with `c`, which ends in a comma, and goes on with another member. */
  predicate Extends(c: bytes, d: bytes) {
    var n := |c|;
    && EndsInComma(c) && |d| >= n + 5
    && (forall i {:trigger d[i]} :: 0 <= i < n ==> d[i] == c[i])
    && d[n] == QUOTE && d[n + 1] == QUOTE && d[n + 2] == COLON && d[n + 3] == ZERO && d[n + 4] == RBRACE
  }

  /** What is found in `c` is found in `d`; what is found in `d` only ends with the first quote behind `c`. */
  predicate Carried<T(==)>(n: nat, r: Parsed<T>, r': Parsed<T>) {
    && (r.Ok? ==> r.next < n && r' == r)
    && (r.Fail? && r'.Ok? ==> r'.next == n + 1)
  }

  /** The same for what does not end with a quote. */
  predicate Kept<T(==)>(n: nat, r: Parsed<T>, r': Parsed<T>) {
    (r.Ok? ==> r.next < n && r' == r) && (r.Fail? ==> !r'.Ok?)
  }

  lemma {:induction false} SameBlankEnd(c: bytes, d: bytes, o: nat)
    requires Extends(c, d) && o < |c|
    ensures BlankEnd(c, o) == BlankEnd(d, o) < |c|
    decreases |c| - o
  {
    assert d[o] == c[o];
    if c[o] <= SPACE { SameBlankEnd(c, d, o + 1); }
  }

  lemma SameBlanks(c: bytes, d: bytes, o: nat)
    requires Extends(c, d) && o <= |c|
    ensures SkipBlanks(c, o) == SkipBlanks(d, o) <= |c|
    ensures o < |c| ==> SkipBlanks(c, o) < |c|
  {
    if o < |c| { SameBlankEnd(c, d, o); } else { assert BlankEnd(d, o) == o; }
  }

  /** No blanks stand between the quotes and the colon behind `c`. */
  lemma NoBlanksBehind(c: bytes, d: bytes, o: nat)
    requires Extends(c, d) && |c| < o <= |c| + 4
    ensures SkipBlanks(d, o) == o
  {
  }

  lemma SameLiteral(c: bytes, d: bytes, o: nat, t: bytes)
    requires Extends(c, d) && o <= |c| && t != [] && COMMA !in t && QUOTE !in t
    ensures At(c, o, t) <==> At(d, o, t)
    ensures At(c, o, t) ==> o + |t| < |c|
  {
    var e := o + |t|;
    if At(c, o, t) {
      AtBytes(c, o, t);
      assert d[o..e] == c[o..e];
    }
    if At(d, o, t) {
      AtBytes(d, o, t);
      assert d[|c| - 1] == COMMA && d[|c|] == QUOTE;
      assert d[o..e] == c[o..e];
    }
  }

  lemma AtBytes(c: bytes, o: nat, t: bytes)
    requires At(c, o, t)
    ensures forall i {:trigger c[i]} :: o <= i < o + |t| ==> c[i] in t
  {
    forall i {:trigger c[i]} | o <= i < o + |t| ensures c[i] in t {
      assert t[i - o] == c[o..o + |t|][i - o];
    }
  }

  // ----- numbers and strings -----

  lemma {:induction false} SameSpan(c: bytes, d: bytes, o: nat, limit: nat)
    requires Extends(c, d) && o < |c|
    ensures NumberSpan(c, o, limit) == NumberSpan(d, o, limit) < |c| - o
    decreases limit
  {
    assert d[o] == c[o];
    if limit > 0 && IsNumberByte(c[o]) { SameSpan(c, d, o + 1, limit - 1); }
  }

  lemma SameNumber(c: bytes, d: bytes, o: nat)
    requires Extends(c, d) && o < |c|
    ensures Kept(|c|, ParseNumber(c, o), ParseNumber(d, o))
  {
    hide Strtod, NumberSpan;
    SameSpan(c, d, o, NUMBER_LIMIT);
    var e := o + NumberSpan(c, o, NUMBER_LIMIT);
    assert d[o..e] == c[o..e] by { hide ParseNumber; assert e <= |c| <= |d|; }
    hide Extends;
    assert ParseNumber(c, o) == ParseNumber(d, o);
  }

  /** A string that does not end in `c` ends with the first quote behind it. */
  lemma {:induction false} SameStringEnd(c: bytes, d: bytes, i: nat)
    requires Extends(c, d) && i <= |c|
    ensures
      var r, r' := StringEnd(c, i), StringEnd(d, i);
      if r.Ok? then r' == r && r.next < |c| - 1 else r'.Ok? && r'.next == |c|
    decreases |c| - i
  {
    if i < |c| {
      assert d[i] == c[i];
      if c[i] == BACKSLASH { SameStringEnd(c, d, i + 2); } else if c[i] != QUOTE { SameStringEnd(c, d, i + 1); }
    }
  }

  lemma SameHex4(c: bytes, d: bytes, i: nat)
    requires Extends(c, d) && i + 4 <= |c|
    ensures Hex4(c, i) == Hex4(d, i)
  {
    assert d[i] == c[i] && d[i + 1] == c[i + 1] && d[i + 2] == c[i + 2] && d[i + 3] == c[i + 3];
  }

  lemma SameLiteral16(c: bytes, d: bytes, p: nat, end: nat)
    requires Extends(c, d) && p < end < |c|
    ensures Utf16Literal(c, p, end) == Utf16Literal(d, p, end)
  {
    hide Hex4, Utf8;
    if end - p >= 6 { SameHex4(c, d, p + 2); }
    if end - p >= 12 {
      SameHex4(c, d, p + 8);
      assert d[p + 6] == c[p + 6] && d[p + 7] == c[p + 7];
    }
  }

  lemma {:induction false} SameDecode(c: bytes, d: bytes, p: nat, end: nat)
    requires Extends(c, d) && end < |c|
    ensures Decode(c, p, end) == Decode(d, p, end)
    decreases |c| - p
  {
    if p < end {
      hide Utf16Literal;
      assert d[p] == c[p] && d[p + 1] == c[p + 1];
      SameLiteral16(c, d, p, end);
      var one := DecodeOne(c, p, end);
      if one.Ok? { SameDecode(c, d, one.next, end); }
    }
  }

  lemma SameString(c: bytes, d: bytes, o: nat)
    requires Extends(c, d) && o < |c|
    ensures Carried(|c|, ParseString(c, o), ParseString(d, o))
  {
    hide StringEnd, Decode;
    assert d[o] == c[o];
    if c[o] == QUOTE {
      SameStringEnd(c, d, o + 1);
      var end := StringEnd(c, o + 1);
      if end.Ok? { SameDecode(c, d, o + 1, end.next); }
    }
  }

  // ----- values -----

  lemma {:induction false} SameValue(c: bytes, d: bytes, o: nat, depth: int)
    requires Extends(c, d) && o < |c|
    ensures Carried(|c|, ParseValue(c, o, depth), ParseValue(d, o, depth))
    decreases |c| - o, 1
  {
    hide At, Extends, ParseString, ParseNumber, ParseArray, ParseObject;
    FirstByte(c, d, o);
    SameLiteral(c, d, o, NULL_TEXT);
    SameLiteral(c, d, o, FALSE_TEXT);
    SameLiteral(c, d, o, TRUE_TEXT);
    SameString(c, d, o);
    SameNumber(c, d, o);
    if c[o] == LBRACKET { SameArray(c, d, o, depth); }
    if c[o] == LBRACE { SameObject(c, d, o, depth); }
  }

  lemma FirstByte(c: bytes, d: bytes, o: nat)
    requires Extends(c, d) && o < |c|
    ensures |c| < |d| && d[o] == c[o]
  {
  }

  lemma {:induction false} SameArray(c: bytes, d: bytes, o: nat, depth: int)
    requires Extends(c, d) && o < |c| && c[o] == LBRACKET
    ensures o < |d| && Kept(|c|, ParseArray(c, o, depth), ParseArray(d, o, depth))
    decreases |c| - o, 0
  {
    hide Extends, ParseItems, SkipBlanks;
    FirstInside(c, d, o);
    var first := SkipBlanks(c, o + 1);
    if depth < NESTING_LIMIT { SameItems(c, d, first, depth + 1); }
  }

  /** Behind an opening byte there is a byte that is no blank. */
  lemma FirstInside(c: bytes, d: bytes, o: nat)
    requires Extends(c, d) && o < |c| && c[o] != COMMA
    ensures
      var first := SkipBlanks(c, o + 1);
      first < |c| < |d| && SkipBlanks(d, o + 1) == first && d[first] == c[first] && (c[first] != COMMA ==> first + 1 < |c|)
  {
    SameBlanks(c, d, o + 1);
  }

  lemma {:induction false} SameObject(c: bytes, d: bytes, o: nat, depth: int)
    requires Extends(c, d) && o < |c| && c[o] == LBRACE
    ensures o < |d| && Kept(|c|, ParseObject(c, o, depth), ParseObject(d, o, depth))
    decreases |c| - o, 0
  {
    hide Extends, ParseMembers, SkipBlanks;
    FirstInside(c, d, o);
    var first := SkipBlanks(c, o + 1);
    if depth < NESTING_LIMIT { SameMembers(c, d, first, depth + 1); }
  }

  /** What follows a value that ends in `c`, or with the first quote behind it. */
  lemma SameAfter(c: bytes, d: bytes, o: nat)
    requires Extends(c, d) && o <= |c| + 1 && o != |c|
    ensures
      var after := SkipBlanks(d, o);
      after < |d|
      && if o < |c| then SkipBlanks(c, o) == after < |c| && d[after] == c[after] && (c[after] != COMMA ==> after + 1 < |c|)
         else d[after] == QUOTE
  {
    if o < |c| { SameBlanks(c, d, o); } else { NoBlanksBehind(c, d, o); }
  }

  lemma {:induction false} SameItems(c: bytes, d: bytes, o: nat, depth: int)
    requires Extends(c, d) && o <= |c|
    ensures Kept(|c|, ParseItems(c, o, depth), ParseItems(d, o, depth))
    decreases |c| - o, 2
  {
    hide Extends, ParseValue, SkipBlanks;
    SameBlanks(c, d, o);
    var start := SkipBlanks(c, o);
    if start == |c| {
      NoItemBehind(c, d, o, depth);
    } else {
      SameValue(c, d, start, depth);
      var v, v' := ParseValue(c, start, depth), ParseValue(d, start, depth);
      if v'.Ok? && !v.Overread? {
        SameAfter(c, d, v'.next);
        if v.Ok? { SameItems(c, d, SkipBlanks(c, v.next) + 1, depth); }
      }
    }
  }

  lemma NoItemBehind(c: bytes, d: bytes, o: nat, depth: int)
    requires Extends(c, d) && o <= |c| && SkipBlanks(c, o) == SkipBlanks(d, o) == |c|
    ensures !ParseItems(c, o, depth).Ok? && !ParseItems(d, o, depth).Ok?
  {
    hide At, SkipBlanks, ParseArray, ParseObject, ParseNumber, ParseString;
    KeyBehind(c, d);
    NoBlanksBehind(c, d, |c| + 2);
    SameLiteral(c, d, |c|, NULL_TEXT);
    SameLiteral(c, d, |c|, FALSE_TEXT);
    SameLiteral(c, d, |c|, TRUE_TEXT);
    assert ParseValue(d, |c|, depth).next == |c| + 2;
    assert d[|c| + 2] == COLON;
  }

  /** The empty name behind `c`. */
  lemma KeyBehind(c: bytes, d: bytes)
    requires Extends(c, d)
    ensures ParseString(d, |c|) == Ok([], |c| + 2)
  {
    assert StringEnd(d, |c| + 1) == Ok(0, |c| + 1);
  }

  lemma {:induction false} SameMember(c: bytes, d: bytes, o: nat, depth: int)
    requires Extends(c, d) && o < |c|
    ensures Carried(|c|, ParseMember(c, o, depth), ParseMember(d, o, depth))
    decreases |c| - o, 2
  {
    hide Extends, ParseValue, ParseString, SkipBlanks;
    SameBlanks(c, d, o);
    var start := SkipBlanks(c, o);
    SameString(c, d, start);
    var key, key' := ParseString(c, start), ParseString(d, start);
    if key'.Ok? {
      SameAfter(c, d, key'.next);
      var colon := SkipBlanks(d, key'.next);
      if key.Ok? && c[colon] == COLON {
        FirstInside(c, d, colon);
        SameValue(c, d, SkipBlanks(c, colon + 1), depth);
      }
    }
  }

  lemma {:induction false} SameMembers(c: bytes, d: bytes, o: nat, depth: int)
    requires Extends(c, d) && o <= |c|
    ensures Kept(|c|, ParseMembers(c, o, depth), ParseMembers(d, o, depth))
    decreases |c| - o, 3
  {
    hide Extends, ParseValue, ParseString, SkipBlanks, ParseMember;
    if o == |c| {
      CommaLeads(c, depth);
    } else {
      SameMember(c, d, o, depth);
      var m, m' := ParseMember(c, o, depth), ParseMember(d, o, depth);
      if m'.Ok? && !m.Overread? {
        SameAfter(c, d, m'.next);
        if m.Ok? { SameMembers(c, d, SkipBlanks(c, m.next) + 1, depth); }
      }
    }
  }

  /** Behind the last byte the loop over members reads on. */
  lemma CommaLeads(c: bytes, depth: int)
    ensures ParseMember(c, |c|, depth).Overread? && ParseMembers(c, |c|, depth).Overread?
  {
  }

  // ----- where the buffer is left, the text can go on -----

  /** `c` followed by another member and by `tail`. */
  function GoneOn(c: bytes, tail: bytes): bytes { c + (MEMBER + tail) }

  lemma GoneOnExtends(c: bytes, tail: bytes)
    requires EndsInComma(c)
    ensures Extends(c, GoneOn(c, tail)) && |GoneOn(c, tail)| == |c| + 5 + |tail|
  {
  }

  /** The byte behind the member and `t` is a closing one. */
  lemma ClosedBy(c: bytes, t: bytes, closing: byte, rest: bytes)
    requires EndsInComma(c) && closing > SPACE
    ensures
      var d, e := GoneOn(c, t + ([closing] + rest)), |c| + 5 + |t|;
      GoneOn(c, (t + [closing]) + rest) == d && e < |d| && d[e] == closing && SkipBlanks(d, e) == e
  {
    assert (t + [closing]) + rest == t + ([closing] + rest);
  }

  /** What becomes of an open part of `c` when the text goes on: it is parsed up to the end of `t`. */
  predicate Completed<T(!new)>(c: bytes, t: bytes, r: Parsed<T>) { r.Ok? && r.next == |c| + 5 + |t| }

  lemma {:induction false} ValueGoesOn(c: bytes, o: nat, depth: int, rest: bytes) returns (t: bytes)
    requires ParseValue(c, o, depth).Overread?
    ensures Completed(c, t, ParseValue(GoneOn(c, t + rest), o, depth))
    decreases |c| - o, 1
  {
    hide At, Extends, ParseString, ParseNumber, ParseArray, ParseObject, GoneOn;
    ValueOverread(c, o, depth);
    if c[o] == LBRACKET { t := ArrayGoesOn(c, o, depth, rest); } else { t := ObjectGoesOn(c, o, depth, rest); }
    var d := GoneOn(c, t + rest);
    GoneOnExtends(c, t + rest);
    FirstByte(c, d, o);
    SameLiteral(c, d, o, NULL_TEXT);
    SameLiteral(c, d, o, FALSE_TEXT);
    SameLiteral(c, d, o, TRUE_TEXT);
  }

  lemma {:induction false} ArrayGoesOn(c: bytes, o: nat, depth: int, rest: bytes) returns (t: bytes)
    requires o < |c| && c[o] == LBRACKET && ParseArray(c, o, depth).Overread?
    ensures o < |GoneOn(c, t + rest)| && Completed(c, t, ParseArray(GoneOn(c, t + rest), o, depth))
    decreases |c| - o, 0
  {
    hide Extends, ParseItems, SkipBlanks, GoneOn;
    var first := SkipBlanks(c, o + 1);
    ItemsOverread(c, first, depth + 1);
    t := ItemsGoOn(c, first, depth + 1, rest);
    GoneOnExtends(c, t + rest);
    FirstInside(c, GoneOn(c, t + rest), o);
  }

  lemma {:induction false} ObjectGoesOn(c: bytes, o: nat, depth: int, rest: bytes) returns (t: bytes)
    requires o < |c| && c[o] == LBRACE && ParseObject(c, o, depth).Overread?
    ensures o < |GoneOn(c, t + rest)| && Completed(c, t, ParseObject(GoneOn(c, t + rest), o, depth))
    decreases |c| - o, 0
  {
    hide Extends, ParseMembers, SkipBlanks, GoneOn;
    var first := SkipBlanks(c, o + 1);
    MembersOverread(c, first, depth + 1);
    t := MembersGoOn(c, first, depth + 1, rest);
    GoneOnExtends(c, t + rest);
    FirstInside(c, GoneOn(c, t + rest), o);
  }

  lemma {:induction false} ItemsGoOn(c: bytes, o: nat, depth: int, rest: bytes) returns (t: bytes)
    requires o < |c| && ParseItems(c, o, depth).Overread?
    ensures Completed(c, t, ParseItems(GoneOn(c, t + rest), o, depth))
    decreases |c| - o, 2
  {
    hide At, Extends, ParseValue, SkipBlanks, GoneOn;
    ItemsOverread(c, o, depth);
    var start := SkipBlanks(c, o);
    var v := ParseValue(c, start, depth);
    if v.Ok? {
      var after := SkipBlanks(c, v.next);
      if after + 1 == |c| { NoItemAtEnd(c, depth); }
      t := ItemsGoOn(c, after + 1, depth, rest);
      var d := GoneOn(c, t + rest);
      GoneOnExtends(c, t + rest);
      SameBlanks(c, d, o);
      SameValue(c, d, start, depth);
      SameAfter(c, d, v.next);
    } else {
      var inner := ValueGoesOn(c, start, depth, [RBRACKET] + rest);
      t := inner + [RBRACKET];
      ClosedBy(c, inner, RBRACKET, rest);
      GoneOnExtends(c, t + rest);
      SameBlanks(c, GoneOn(c, t + rest), o);
    }
  }

  lemma NoItemAtEnd(c: bytes, depth: int)
    ensures ParseItems(c, |c|, depth).Fail?
  {
  }

  lemma {:induction false} MembersGoOn(c: bytes, o: nat, depth: int, rest: bytes) returns (t: bytes)
    requires InReach(c, o) && ParseMembers(c, o, depth).Overread?
    ensures Completed(c, t, ParseMembers(GoneOn(c, t + rest), o, depth))
    decreases |c| - o, 2
  {
    hide Extends, ParseMember, SkipBlanks, GoneOn;
    MembersOverread(c, o, depth);
    var m := ParseMember(c, o, depth);
    if o == |c| {
      t := [];
      GoneOnExtends(c, t + rest);
      LastMember(c, GoneOn(c, t + rest), depth);
    } else if m.Ok? {
      var after := SkipBlanks(c, m.next);
      t := MembersGoOn(c, after + 1, depth, rest);
      var d := GoneOn(c, t + rest);
      GoneOnExtends(c, t + rest);
      SameMember(c, d, o, depth);
      SameAfter(c, d, m.next);
    } else {
      var inner := MemberGoesOn(c, o, depth, [RBRACE] + rest);
      t := inner + [RBRACE];
      ClosedBy(c, inner, RBRACE, rest);
    }
  }

  /** The member that was added, from its name on. */
  lemma LastMember(c: bytes, d: bytes, depth: int)
    requires Extends(c, d)
    ensures ParseMembers(d, |c|, depth).Ok? && ParseMembers(d, |c|, depth).next == |c| + 5
  {
    hide At, StringEnd, Decode, ParseString, ParseNumber;
    var n := |c|;
    KeyBehind(c, d);
    assert SkipBlanks(d, n) == n;
    NoBlanksBehind(c, d, n + 2);
    NoBlanksBehind(c, d, n + 3);
    NoBlanksBehind(c, d, n + 4);
    ZeroBehind(c, d, depth);
  }

  lemma ZeroBehind(c: bytes, d: bytes, depth: int)
    requires Extends(c, d)
    ensures ParseValue(d, |c| + 3, depth).Ok? && ParseValue(d, |c| + 3, depth).next == |c| + 4
  {
    var o := |c| + 3;
    assert NumberSpan(d, o, NUMBER_LIMIT) == 1;
    assert d[o..o + 1] == [ZERO];
    assert Strtod([ZERO]).0 == 1;
  }

  lemma {:induction false} MemberGoesOn(c: bytes, o: nat, depth: int, rest: bytes) returns (t: bytes)
    requires o < |c| && EndsInComma(c) && ParseMember(c, o, depth).Overread?
    ensures Completed(c, t, ParseMember(GoneOn(c, t + rest), o, depth))
    decreases |c| - o, 1
  {
    hide Extends, ParseValue, ParseString, SkipBlanks, GoneOn;
    var start := SkipBlanks(c, o);
    var key := ParseString(c, start);
    var colon := SkipBlanks(c, key.next);
    t := ValueGoesOn(c, SkipBlanks(c, colon + 1), depth, rest);
    var d := GoneOn(c, t + rest);
    GoneOnExtends(c, t + rest);
    SameBlanks(c, d, o);
    SameString(c, d, start);
    SameAfter(c, d, key.next);
    FirstInside(c, d, colon);
  }

  // ----- the document -----

  /** `c`, another member and `t` together are one text, parsed up to its end. */
  predicate Completes(c: bytes, t: bytes) {
    var r := ParseDocument(GoneOn(c, t), false);
    r.Ok? && r.next == |GoneOn(c, t)|
  }

  /** A byte order mark is skipped in both texts or in neither, but for a text of this mark and a comma. */
  lemma SameStart(c: bytes, d: bytes)
    requires Extends(c, d)
    ensures |c| > 4 ==> (At(c, 0, BOM) <==> At(d, 0, BOM))
    ensures |c| <= 4 && At(d, 0, BOM) ==> |c| == 4 && c[0] == BOM[0] && c[3] == COMMA
  {
    assert d[|c| - 1] == COMMA;
    if |c| > 4 {
      assert c[..3] == d[..3];
    } else if At(d, 0, BOM) {
      AtBytes(d, 0, BOM);
      assert d[0] == d[0..3][0];
    }
  }

  /** No value starts with a comma or with a byte order mark. */
  lemma NoValue(c: bytes, o: nat, depth: int)
    requires o < |c| && (c[o] == COMMA || c[o] == BOM[0])
    ensures ParseValue(c, o, depth).Fail?
  {
    if At(c, o, NULL_TEXT) { AtBytes(c, o, NULL_TEXT); }
    if At(c, o, FALSE_TEXT) { AtBytes(c, o, FALSE_TEXT); }
    if At(c, o, TRUE_TEXT) { AtBytes(c, o, TRUE_TEXT); }
  }

  lemma SameDocument(c: bytes, d: bytes)
    requires Extends(c, d)
    ensures
      var r, r' := ParseDocument(c, false), ParseDocument(d, false);
      !r.Overread? && r'.Ok? ==> r'.next <= |c| + 1
  {
    hide Extends, ParseValue, SkipBlanks, At;
    SameStart(c, d);
    GoesBeyond(c, d);
    if |c| <= 4 && At(d, 0, BOM) {
      Steps(c, d, 3);
      NoValue(d, 3, 0);
    } else {
      var start := if |c| > 4 && At(c, 0, BOM) then 3 else 0;
      SameBlanks(c, d, start);
      SameValue(c, d, SkipBlanks(c, start), 0);
    }
  }

  lemma GoesBeyond(c: bytes, d: bytes)
    requires Extends(c, d)
    ensures 0 < |c| && |c| + 5 <= |d|
  {
  }

  lemma Steps(c: bytes, d: bytes, o: nat)
    requires Extends(c, d) && o < |c| && c[o] == COMMA
    ensures d[o] == COMMA && SkipBlanks(d, o) == o
  {
  }

  lemma DocumentGoesOn(c: bytes) returns (t: bytes)
    requires ParseDocument(c, false).Overread?
    ensures EndsInComma(c) && Completes(c, t)
  {
    hide Extends, ParseValue, SkipBlanks, At, GoneOn;
    var start := if |c| > 4 && At(c, 0, BOM) then 3 else 0;
    var o := SkipBlanks(c, start);
    ValueOverread(c, o, 0);
    t := ValueGoesOn(c, o, 0, []);
    var d := GoneOn(c, t + []);
    assert t + [] == t;
    GoneOnExtends(c, t);
    SameStart(c, d);
    if |c| <= 4 && At(d, 0, BOM) {
      MarkFirst(c);
      NoValue(c, 0, 0);
    }
    SameBlanks(c, d, start);
  }

  lemma MarkFirst(c: bytes)
    requires c != [] && c[0] == BOM[0]
    ensures SkipBlanks(c, 0) == 0
  {
  }

  /**
   * The parser reads behind a buffer exactly when this ends in a comma and another member, with some bytes behind it,
   * would complete it: the loop over the members of an object has met the comma as the last byte. So it never leaves a
   * buffer that ends in any other byte, such as that of a C string with its terminator.
   */
  lemma OverreadExactly(c: bytes, requireNul: bool)
    ensures ParseDocument(c, requireNul).Overread? <==> EndsInComma(c) && exists t :: Completes(c, t)
  {
    hide ParseValue, SkipBlanks, At, GoneOn, Extends;
    assert ParseDocument(c, requireNul).Overread? <==> ParseDocument(c, false).Overread?;
    if ParseDocument(c, false).Overread? {
      var t := DocumentGoesOn(c);
      assert Completes(c, t);
    } else if EndsInComma(c) {
      forall t ensures !Completes(c, t) {
        GoneOnExtends(c, t);
        SameDocument(c, GoneOn(c, t));
      }
    }
  }

  /** `{"":0,` is such a buffer. */
  const CUT_OFF: bytes := [LBRACE, QUOTE, QUOTE, COLON, ZERO, COMMA]

  lemma OverreadWitness(requireNul: bool)
    ensures ParseDocument(CUT_OFF, requireNul).Overread?
  {
    hide ParseMembers, At;
    var c := CUT_OFF;
    WitnessMembers(c);
    BraceFirst(c);
    assert c[0] == LBRACE && c[1] == QUOTE && |c| == 6;
    assert SkipBlanks(c, 0) == 0 && SkipBlanks(c, 1) == 1;
    assert ParseObject(c, 0, 0).Overread?;
    assert ParseValue(c, 0, 0).Overread?;
  }

  lemma BraceFirst(c: bytes)
    requires c != [] && c[0] == LBRACE
    ensures !At(c, 0, NULL_TEXT) && !At(c, 0, FALSE_TEXT) && !At(c, 0, TRUE_TEXT) && !At(c, 0, BOM)
  {
    if At(c, 0, NULL_TEXT) { AtBytes(c, 0, NULL_TEXT); }
    if At(c, 0, FALSE_TEXT) { AtBytes(c, 0, FALSE_TEXT); }
    if At(c, 0, TRUE_TEXT) { AtBytes(c, 0, TRUE_TEXT); }
    if At(c, 0, BOM) { AtBytes(c, 0, BOM); }
  }

  lemma WitnessMembers(c: bytes)
    requires c == CUT_OFF
    ensures ParseMembers(c, 1, 1).Overread?
  {
    hide ParseMember;
    WitnessMember(c);
    CommaLeads(c, 1);
    assert SkipBlanks(c, 5) == 5 && |c| == 6;
  }

  lemma WitnessMember(c: bytes)
    requires c == CUT_OFF
    ensures ParseMember(c, 1, 1).Ok? && ParseMember(c, 1, 1).next == 5
  {
    assert StringEnd(c, 2) == Ok(0, 2);
    assert ParseString(c, 1) == Ok([], 3);
    assert NumberSpan(c, 4, NUMBER_LIMIT) == 1;
    assert c[4..5] == [ZERO];
    assert Strtod([ZERO]).0 == 1;
    hide StringEnd, Decode, Strtod, NumberSpan, ParseString;
    assert !At(c, 4, NULL_TEXT) && !At(c, 4, FALSE_TEXT) && !At(c, 4, TRUE_TEXT);
  }
}
