/**
 * Where the blanks of printed text stand: unformatted text has none outside its strings, and formatted text is the
 * unformatted one with the blanks that its punctuation asks for.
 */
module JsonLayout {
  import opened Bytes
  import opened JsonValue
  import opened JsonText
  import JsonRoundTrip

  // ----- without blanks -----

  /** The text without the blanks outside its strings. */
  function Bare(t: bytes, inString: bool): bytes {
    if t == [] then []
    else if inString then
      if t[0] == BACKSLASH && |t| > 1 then t[..2] + Bare(t[2..], true) else [t[0]] + Bare(t[1..], t[0] != QUOTE)
    else if t[0] <= SPACE then Bare(t[1..], false)
    else [t[0]] + Bare(t[1..], t[0] == QUOTE)
  }

  /** Bytes that stand for themselves outside of strings: literals and numbers. */
  predicate IsPlain(t: bytes) {
    forall i :: 0 <= i < |t| ==>
      t[i] > SPACE && t[i] !in {QUOTE, COMMA, COLON, LBRACKET, RBRACKET, LBRACE, RBRACE}
  }

  lemma {:induction false} BarePlain(t: bytes, rest: bytes)
    requires IsPlain(t)
    ensures Bare(t + rest, false) == t + Bare(rest, false)
  {
    if t == [] {
      assert t + rest == rest;
    } else {
      BarePlain(t[1..], rest);
      assert (t + rest)[1..] == t[1..] + rest;
      assert [t[0]] + (t[1..] + Bare(rest, false)) == t + Bare(rest, false);
    }
  }

  lemma {:induction false} BareBlanks(t: bytes, rest: bytes)
    requires forall i :: 0 <= i < |t| ==> t[i] <= SPACE
    ensures Bare(t + rest, false) == Bare(rest, false)
  {
    if t == [] {
      assert t + rest == rest;
    } else {
      BareBlanks(t[1..], rest);
      assert (t + rest)[1..] == t[1..] + rest;
    }
  }

  lemma BareMark(b: byte, rest: bytes)
    requires b > SPACE && b != QUOTE
    ensures Bare([b] + rest, false) == [b] + Bare(rest, false)
  {
    assert ([b] + rest)[1..] == rest;
  }

  /** Bytes of a string that are neither quotes nor backslashes. */
  lemma {:induction false} BareInside(t: bytes, rest: bytes)
    requires QUOTE !in t && BACKSLASH !in t
    ensures Bare(t + rest, true) == t + Bare(rest, true)
  {
    if t == [] {
      assert t + rest == rest;
    } else {
      assert t[0] in t;
      BareInside(t[1..], rest);
      assert (t + rest)[1..] == t[1..] + rest;
      assert [t[0]] + (t[1..] + Bare(rest, true)) == t + Bare(rest, true);
    }
  }

  /** An escaped byte: itself, or a backslash, a byte, and bytes that are neither quotes nor backslashes. */
  lemma EscapeShape(b: byte)
    ensures
      var t := EscapeByte(b);
      || (|t| == 1 && t[0] != QUOTE && t[0] != BACKSLASH)
      || (|t| >= 2 && t[0] == BACKSLASH && QUOTE !in t[2..] && BACKSLASH !in t[2..])
  {
    if |EscapeByte(b)| == 6 {
      var h, l := HexDigit(b / 16), HexDigit(b % 16);
      assert EscapeByte(b)[2..] == [ZERO, ZERO, h, l];
    } else if |EscapeByte(b)| == 2 {
      assert EscapeByte(b)[2..] == [];
    }
  }

  lemma BareEscapeByte(b: byte, rest: bytes)
    ensures Bare(EscapeByte(b) + rest, true) == EscapeByte(b) + Bare(rest, true)
  {
    EscapeShape(b);
    hide EscapeByte;
    var t := EscapeByte(b);
    if |t| == 1 {
      BareInside(t, rest);
    } else {
      BareInside(t[2..], rest);
      assert (t + rest)[2..] == t[2..] + rest && (t + rest)[..2] == t[..2];
      assert t[..2] + (t[2..] + Bare(rest, true)) == t + Bare(rest, true);
    }
  }

  lemma {:induction false} BareEscape(s: bytes, rest: bytes)
    ensures Bare(Escape(s) + ([QUOTE] + rest), true) == Escape(s) + ([QUOTE] + Bare(rest, false))
  {
    hide EscapeByte;
    if s == [] {
      assert Escape(s) + ([QUOTE] + rest) == [QUOTE] + rest && ([QUOTE] + rest)[1..] == rest;
    } else {
      var e, more := EscapeByte(s[0]), Escape(s[1..]);
      assert Escape(s) + ([QUOTE] + rest) == e + (more + ([QUOTE] + rest));
      hide Bare;
      BareEscapeByte(s[0], more + ([QUOTE] + rest));
      BareEscape(s[1..], rest);
      assert e + (more + ([QUOTE] + Bare(rest, false))) == Escape(s) + ([QUOTE] + Bare(rest, false));
    }
  }

  lemma BareQuoted(s: bytes, rest: bytes)
    ensures Bare(Quoted(s) + rest, false) == Quoted(s) + Bare(rest, false)
  {
    hide Escape;
    var t := Escape(s) + ([QUOTE] + rest);
    assert Quoted(s) + rest == [QUOTE] + t && ([QUOTE] + t)[1..] == t;
    BareEscape(s, rest);
    assert [QUOTE] + (Escape(s) + ([QUOTE] + Bare(rest, false))) == Quoted(s) + Bare(rest, false);
  }

  lemma PlainText(v: Value, format: bool, depth: nat)
    requires Printable(v) && !v.Str? && !v.Arr? && !v.Obj?
    ensures IsPlain(Text(v, format, depth)) && Text(v, format, depth) == Text(v, false, 0)
  {
    if v.Num? {
      var n := ValueInt(v.d);
      var digits := Decimal(if n < 0 then -n else n);
      hide Decimal;
      assert forall i :: 0 <= i < |IntText(n)| ==> IntText(n)[i] == MINUS || IntText(n)[i] in digits;
    }
  }

  /** Formatted or not, and wherever it starts: what is left is the unformatted text. */
  lemma {:induction false} BareText(v: Value, format: bool, d: nat, e: nat, rest: bytes)
    requires Printable(v)
    ensures Bare(Text(v, format, d) + rest, false) == Text(v, false, e) + Bare(rest, false)
    decreases v, 0
  {
    hide Bare, Quoted, ItemsText, MembersText, IntText;
    match v
    case Str(s) => BareQuoted(s, rest);
    case Arr(items) =>
      var t, u := ItemsText(items, format, d + 1), ItemsText(items, false, e + 1);
      assert Text(v, format, d) + rest == [LBRACKET] + (t + rest);
      BareMark(LBRACKET, t + rest);
      BareItems(items, format, d + 1, e + 1, rest);
      assert [LBRACKET] + (u + Bare(rest, false)) == Text(v, false, e) + Bare(rest, false);
    case Obj(members) =>
      var t, u := MembersText(members, format, d + 1), MembersText(members, false, e + 1);
      assert Text(v, format, d) + rest == [LBRACE] + (NewLine(format) + (t + rest));
      BareMark(LBRACE, NewLine(format) + (t + rest));
      BareBlanks(NewLine(format), t + rest);
      BareMembers(members, format, d + 1, e + 1, rest);
      assert [LBRACE] + (u + Bare(rest, false)) == Text(v, false, e) + Bare(rest, false);
    case _ =>
      PlainText(v, format, d);
      PlainText(v, false, e);
      BarePlain(Text(v, format, d), rest);
  }

  lemma {:induction false} BareItems(items: seq<Value>, format: bool, d: nat, e: nat, rest: bytes)
    requires Printable(Arr(items))
    ensures Bare(ItemsText(items, format, d) + rest, false) == ItemsText(items, false, e) + Bare(rest, false)
    decreases items, 0
  {
    hide Bare, Text;
    if items == [] {
      BareMark(RBRACKET, rest);
    } else {
      var t, u := ItemsTail(items[1..], format, d), ItemsTail(items[1..], false, e);
      var first := Text(items[0], format, d);
      assert ItemsText(items, format, d) + rest == first + (t + rest);
      BareText(items[0], format, d, e, t + rest);
      BareItemsTail(items[1..], format, d, e, rest);
      assert Text(items[0], false, e) + (u + Bare(rest, false)) == ItemsText(items, false, e) + Bare(rest, false);
    }
  }

  lemma {:induction false} BareItemsTail(items: seq<Value>, format: bool, d: nat, e: nat, rest: bytes)
    requires Printable(Arr(items))
    ensures Bare(ItemsTail(items, format, d) + rest, false) == ItemsTail(items, false, e) + Bare(rest, false)
    decreases items, 1
  {
    hide Bare, ItemsText;
    if items == [] {
      BareMark(RBRACKET, rest);
    } else {
      var t, u := ItemsText(items, format, d), ItemsText(items, false, e);
      var blanks := if format then [SPACE] else [];
      assert ItemsTail(items, format, d) + rest == [COMMA] + (blanks + (t + rest));
      BareMark(COMMA, blanks + (t + rest));
      BareBlanks(blanks, t + rest);
      BareItems(items, format, d, e, rest);
      assert [COMMA] + (u + Bare(rest, false)) == ItemsTail(items, false, e) + Bare(rest, false);
    }
  }

  lemma {:induction false} BareMembers(members: seq<Member<Value>>, format: bool, d: nat, e: nat, rest: bytes)
    requires Printable(Obj(members)) && d > 0 && e > 0
    ensures Bare(MembersText(members, format, d) + rest, false) == MembersText(members, false, e) + Bare(rest, false)
    decreases members, 0
  {
    hide Bare, Text, Quoted, MembersTail;
    if members == [] {
      assert MembersText(members, format, d) + rest == Indent(format, d - 1) + ([RBRACE] + rest);
      BareBlanks(Indent(format, d - 1), [RBRACE] + rest);
      BareMark(RBRACE, rest);
    } else {
      var m, tail, tail' := members[0], MembersTail(members[1..], format, d), MembersTail(members[1..], false, e);
      var value := Text(m.item, format, d);
      assert MembersText(members, format, d) + rest
        == Indent(format, d) + (Quoted(m.key) + (Colon(format) + (value + (tail + rest))));
      BareBlanks(Indent(format, d), Quoted(m.key) + (Colon(format) + (value + (tail + rest))));
      BareQuoted(m.key, Colon(format) + (value + (tail + rest)));
      BareColon(format, value + (tail + rest));
      BareText(m.item, format, d, e, tail + rest);
      BareMembersTail(members[1..], format, d, e, rest);
      assert Quoted(m.key) + ([COLON] + (Text(m.item, false, e) + (tail' + Bare(rest, false))))
        == MembersText(members, false, e) + Bare(rest, false);
    }
  }

  lemma BareColon(format: bool, rest: bytes)
    ensures Bare(Colon(format) + rest, false) == [COLON] + Bare(rest, false)
  {
    var blanks := if format then [TAB] else [];
    assert Colon(format) + rest == [COLON] + (blanks + rest);
    BareMark(COLON, blanks + rest);
    BareBlanks(blanks, rest);
  }

  lemma {:induction false} BareMembersTail(members: seq<Member<Value>>, format: bool, d: nat, e: nat, rest: bytes)
    requires Printable(Obj(members)) && d > 0 && e > 0
    ensures Bare(MembersTail(members, format, d) + rest, false) == MembersTail(members, false, e) + Bare(rest, false)
    decreases members, 1
  {
    hide Bare, MembersText;
    var t, u := MembersText(members, format, d), MembersText(members, false, e);
    var comma := if members == [] then [] else [COMMA];
    assert MembersTail(members, format, d) + rest == comma + (NewLine(format) + (t + rest));
    if members == [] {
      assert comma + (NewLine(format) + (t + rest)) == NewLine(format) + (t + rest);
    } else {
      BareMark(COMMA, NewLine(format) + (t + rest));
    }
    BareBlanks(NewLine(format), t + rest);
    BareMembers(members, format, d, e, rest);
    assert comma + (u + Bare(rest, false)) == MembersTail(members, false, e) + Bare(rest, false);
  }

  /** Taking the blanks outside the strings away gives the unformatted text, which so has none itself. */
  lemma BlanksApart(v: Value, format: bool)
    requires Printable(v)
    ensures Bare(Text(v, format, 0), false) == Text(v, false, 0)
  {
    BareText(v, format, 0, 0, []);
    assert Text(v, format, 0) + [] == Text(v, format, 0) && Bare([], false) == [];
    assert Text(v, false, 0) + [] == Text(v, false, 0);
  }

  // ----- with blanks -----

  /** What is open around the innermost container; `true` stands for an object, `false` for an array. */
  function Outer(open: seq<bool>): seq<bool> {
    if open == [] then [] else open[..|open| - 1]
  }

  predicate InObject(open: seq<bool>) { open != [] && open[|open| - 1] }

  /**
   * Unformatted text laid out: a new line behind an opening brace, behind a comma between members, and in front of a
   * closing brace that is not the first byte of its object; as many tabs behind each as containers are open; a tab behind
   * a colon; and a space behind a comma between items.
   */
  function Laid(t: bytes, inString: bool, open: seq<bool>): bytes
    decreases |t|
  {
    if t == [] then []
    else if inString then
      if t[0] == BACKSLASH && |t| > 1 then t[..2] + Laid(t[2..], true, open) else [t[0]] + Laid(t[1..], t[0] != QUOTE, open)
    else if t[0] == LBRACE && |t| > 1 && t[1] == RBRACE then
      [LBRACE, LINE_FEED] + Tabs(|open|) + [RBRACE] + Laid(t[2..], false, open)
    else if t[0] == LBRACE then [LBRACE, LINE_FEED] + Tabs(|open| + 1) + Laid(t[1..], false, open + [true])
    else if t[0] == RBRACE then [LINE_FEED] + Tabs(|Outer(open)|) + [RBRACE] + Laid(t[1..], false, Outer(open))
    else if t[0] == LBRACKET then [LBRACKET] + Laid(t[1..], false, open + [false])
    else if t[0] == RBRACKET then [RBRACKET] + Laid(t[1..], false, Outer(open))
    else if t[0] == COMMA && InObject(open) then [COMMA, LINE_FEED] + Tabs(|open|) + Laid(t[1..], false, open)
    else if t[0] == COMMA then [COMMA, SPACE] + Laid(t[1..], false, open)
    else if t[0] == COLON then [COLON, TAB] + Laid(t[1..], false, open)
    else [t[0]] + Laid(t[1..], t[0] == QUOTE, open)
  }

  lemma LaidByte(b: byte, rest: bytes, open: seq<bool>)
    requires IsPlain([b])
    ensures Laid([b] + rest, false, open) == [b] + Laid(rest, false, open)
  {
    assert [b][0] == b && ([b] + rest)[1..] == rest;
  }

  lemma {:induction false} LaidPlain(t: bytes, rest: bytes, open: seq<bool>)
    requires IsPlain(t)
    ensures Laid(t + rest, false, open) == t + Laid(rest, false, open)
  {
    hide Laid;
    if t == [] {
      assert t + rest == rest;
    } else {
      LaidByte(t[0], t[1..] + rest, open);
      LaidPlain(t[1..], rest, open);
      assert t + rest == [t[0]] + (t[1..] + rest);
      assert [t[0]] + (t[1..] + Laid(rest, false, open)) == t + Laid(rest, false, open);
    }
  }

  lemma {:induction false} LaidInside(t: bytes, rest: bytes, open: seq<bool>)
    requires QUOTE !in t && BACKSLASH !in t
    ensures Laid(t + rest, true, open) == t + Laid(rest, true, open)
  {
    if t == [] {
      assert t + rest == rest;
    } else {
      assert t[0] in t;
      LaidInside(t[1..], rest, open);
      assert (t + rest)[1..] == t[1..] + rest;
      assert [t[0]] + (t[1..] + Laid(rest, true, open)) == t + Laid(rest, true, open);
    }
  }

  lemma LaidEscapeByte(b: byte, rest: bytes, open: seq<bool>)
    ensures Laid(EscapeByte(b) + rest, true, open) == EscapeByte(b) + Laid(rest, true, open)
  {
    EscapeShape(b);
    hide EscapeByte;
    var t := EscapeByte(b);
    if |t| == 1 {
      LaidInside(t, rest, open);
    } else {
      LaidInside(t[2..], rest, open);
      assert (t + rest)[2..] == t[2..] + rest && (t + rest)[..2] == t[..2];
      assert t[..2] + (t[2..] + Laid(rest, true, open)) == t + Laid(rest, true, open);
    }
  }

  lemma LaidClosingQuote(rest: bytes, open: seq<bool>)
    ensures Laid([QUOTE] + rest, true, open) == [QUOTE] + Laid(rest, false, open)
  {
    assert ([QUOTE] + rest)[1..] == rest;
  }

  lemma {:induction false} LaidEscape(s: bytes, rest: bytes, open: seq<bool>)
    ensures Laid(Escape(s) + ([QUOTE] + rest), true, open) == Escape(s) + ([QUOTE] + Laid(rest, false, open))
  {
    hide EscapeByte, Laid;
    if s == [] {
      LaidClosingQuote(rest, open);
      assert Escape(s) + ([QUOTE] + rest) == [QUOTE] + rest;
    } else {
      var e, more := EscapeByte(s[0]), Escape(s[1..]);
      assert Escape(s) + ([QUOTE] + rest) == e + (more + ([QUOTE] + rest));
      LaidEscapeByte(s[0], more + ([QUOTE] + rest), open);
      LaidEscape(s[1..], rest, open);
      assert e + (more + ([QUOTE] + Laid(rest, false, open))) == Escape(s) + ([QUOTE] + Laid(rest, false, open));
    }
  }

  lemma LaidOpeningQuote(rest: bytes, open: seq<bool>)
    ensures Laid([QUOTE] + rest, false, open) == [QUOTE] + Laid(rest, true, open)
  {
    assert ([QUOTE] + rest)[1..] == rest;
  }

  lemma LaidQuoted(s: bytes, rest: bytes, open: seq<bool>)
    ensures Laid(Quoted(s) + rest, false, open) == Quoted(s) + Laid(rest, false, open)
  {
    hide Escape, Laid;
    var t := Escape(s) + ([QUOTE] + rest);
    assert Quoted(s) + rest == [QUOTE] + t;
    LaidOpeningQuote(t, open);
    LaidEscape(s, rest, open);
    assert [QUOTE] + (Escape(s) + ([QUOTE] + Laid(rest, false, open))) == Quoted(s) + Laid(rest, false, open);
  }

  /** The punctuation, one by one. */
  lemma LaidMark(b: byte, rest: bytes, open: seq<bool>)
    ensures
      var t, r := [b] + rest, Laid([b] + rest, false, open);
      && (b == LBRACE ==> (rest == [] || rest[0] != RBRACE ==>
            r == [LBRACE, LINE_FEED] + Tabs(|open| + 1) + Laid(rest, false, open + [true])))
      && (b == RBRACE ==> r == [LINE_FEED] + Tabs(|Outer(open)|) + [RBRACE] + Laid(rest, false, Outer(open)))
      && (b == LBRACKET ==> r == [LBRACKET] + Laid(rest, false, open + [false]))
      && (b == RBRACKET ==> r == [RBRACKET] + Laid(rest, false, Outer(open)))
      && (b == COMMA ==>
            r == (if InObject(open) then [COMMA, LINE_FEED] + Tabs(|open|) else [COMMA, SPACE]) + Laid(rest, false, open))
      && (b == COLON ==> r == [COLON, TAB] + Laid(rest, false, open))
  {
    assert ([b] + rest)[1..] == rest;
    assert rest != [] ==> ([b] + rest)[1] == rest[0];
  }

  lemma LaidEmptyObject(rest: bytes, open: seq<bool>)
    ensures Laid([LBRACE] + ([RBRACE] + rest), false, open)
      == [LBRACE, LINE_FEED] + Tabs(|open|) + [RBRACE] + Laid(rest, false, open)
  {
    var t := [LBRACE] + ([RBRACE] + rest);
    assert t[1] == RBRACE && t[2..] == rest;
  }

  lemma {:induction false} LaidText(v: Value, e: nat, open: seq<bool>, rest: bytes)
    requires Printable(v)
    ensures Laid(Text(v, false, e) + rest, false, open) == Text(v, true, |open|) + Laid(rest, false, open)
    decreases v, 0
  {
    hide Laid, Quoted, ItemsText, IntText, Tabs;
    match v
    case Str(s) => LaidQuoted(s, rest, open);
    case Arr(items) =>
      var t, u := ItemsText(items, false, e + 1), ItemsText(items, true, |open| + 1);
      assert Text(v, false, e) + rest == [LBRACKET] + (t + rest);
      LaidMark(LBRACKET, t + rest, open);
      assert Outer(open + [false]) == open;
      LaidItems(items, e + 1, open + [false], rest);
      assert [LBRACKET] + (u + Laid(rest, false, open)) == Text(v, true, |open|) + Laid(rest, false, open);
    case Obj(members) => LaidObject(members, e, open, rest);
    case _ =>
      PlainText(v, false, e);
      PlainText(v, true, |open|);
      LaidPlain(Text(v, false, e), rest, open);
  }

  lemma {:induction false} LaidObject(members: seq<Member<Value>>, e: nat, open: seq<bool>, rest: bytes)
    requires Printable(Obj(members))
    ensures
      Laid(Text(Obj(members), false, e) + rest, false, open) == Text(Obj(members), true, |open|) + Laid(rest, false, open)
    decreases members, 2
  {
    hide Laid, Quoted, Text, Tabs, MembersTail;
    var v := Obj(members);
    ObjectText(members, false, e);
    ObjectText(members, true, |open|);
    if members == [] {
      assert Text(v, false, e) + rest == [LBRACE] + ([RBRACE] + rest);
      LaidEmptyObject(rest, open);
      assert Text(v, true, |open|) == [LBRACE, LINE_FEED] + Tabs(|open|) + [RBRACE];
    } else {
      var t, u := MembersText(members, false, e + 1), JsonRoundTrip.Body(members, true, |open| + 1);
      assert Text(v, false, e) + rest == [LBRACE] + (t + rest);
      assert (t + rest)[0] == QUOTE by { MembersStart(members, e + 1); assert t != [] && t[0] == QUOTE; }
      LaidMark(LBRACE, t + rest, open);
      assert Outer(open + [true]) == open && InObject(open + [true]);
      LaidMembers(members, e + 1, open + [true], rest);
      assert Text(v, true, |open|) == [LBRACE, LINE_FEED] + Tabs(|open| + 1) + u;
      assert [LBRACE, LINE_FEED] + Tabs(|open| + 1) + (u + Laid(rest, false, open))
        == Text(v, true, |open|) + Laid(rest, false, open);
    }
  }

  lemma ObjectText(members: seq<Member<Value>>, format: bool, depth: nat)
    requires Printable(Obj(members))
    ensures Text(Obj(members), format, depth) == [LBRACE] + (NewLine(format) + MembersText(members, format, depth + 1))
    ensures members != [] ==>
      MembersText(members, format, depth + 1) == Indent(format, depth + 1) + JsonRoundTrip.Body(members, format, depth + 1)
  {
  }

  lemma MembersStart(members: seq<Member<Value>>, depth: nat)
    requires Printable(Obj(members)) && members != [] && depth > 0
    ensures MembersText(members, false, depth) != [] && MembersText(members, false, depth)[0] == QUOTE
  {
  }

  lemma {:induction false} LaidItems(items: seq<Value>, e: nat, open: seq<bool>, rest: bytes)
    requires Printable(Arr(items)) && open != [] && !InObject(open)
    ensures Laid(ItemsText(items, false, e) + rest, false, open)
      == ItemsText(items, true, |open|) + Laid(rest, false, Outer(open))
    decreases items, 0
  {
    hide Laid, Text;
    if items == [] {
      LaidMark(RBRACKET, rest, open);
    } else {
      var t, u := ItemsTail(items[1..], false, e), ItemsTail(items[1..], true, |open|);
      var first := Text(items[0], false, e);
      assert ItemsText(items, false, e) + rest == first + (t + rest);
      LaidText(items[0], e, open, t + rest);
      LaidItemsTail(items[1..], e, open, rest);
      assert Text(items[0], true, |open|) + (u + Laid(rest, false, Outer(open)))
        == ItemsText(items, true, |open|) + Laid(rest, false, Outer(open));
    }
  }

  lemma {:induction false} LaidItemsTail(items: seq<Value>, e: nat, open: seq<bool>, rest: bytes)
    requires Printable(Arr(items)) && open != [] && !InObject(open)
    ensures Laid(ItemsTail(items, false, e) + rest, false, open)
      == ItemsTail(items, true, |open|) + Laid(rest, false, Outer(open))
    decreases items, 1
  {
    hide Laid, ItemsText;
    if items == [] {
      LaidMark(RBRACKET, rest, open);
    } else {
      var t, u := ItemsText(items, false, e), ItemsText(items, true, |open|);
      assert ItemsTail(items, false, e) + rest == [COMMA] + (t + rest);
      LaidMark(COMMA, t + rest, open);
      LaidItems(items, e, open, rest);
      assert [COMMA, SPACE] + (u + Laid(rest, false, Outer(open)))
        == ItemsTail(items, true, |open|) + Laid(rest, false, Outer(open));
    }
  }

  lemma {:induction false} LaidMembers(members: seq<Member<Value>>, e: nat, open: seq<bool>, rest: bytes)
    requires Printable(Obj(members)) && members != [] && e > 0 && InObject(open)
    ensures Laid(MembersText(members, false, e) + rest, false, open)
      == JsonRoundTrip.Body(members, true, |open|) + Laid(rest, false, Outer(open))
    decreases members, 0
  {
    hide Laid, Text, Quoted, MembersTail;
    var m, tail, tail' := members[0], MembersTail(members[1..], false, e), MembersTail(members[1..], true, |open|);
    var value := Text(m.item, false, e);
    assert MembersText(members, false, e) + rest == Quoted(m.key) + ([COLON] + (value + (tail + rest)));
    LaidQuoted(m.key, [COLON] + (value + (tail + rest)), open);
    LaidMark(COLON, value + (tail + rest), open);
    LaidText(m.item, e, open, tail + rest);
    LaidMembersTail(members[1..], e, open, rest);
    assert Quoted(m.key) + ([COLON, TAB] + (Text(m.item, true, |open|) + (tail' + Laid(rest, false, Outer(open)))))
      == JsonRoundTrip.Body(members, true, |open|) + Laid(rest, false, Outer(open));
  }

  lemma {:induction false} LaidMembersTail(members: seq<Member<Value>>, e: nat, open: seq<bool>, rest: bytes)
    requires Printable(Obj(members)) && e > 0 && InObject(open)
    ensures Laid(MembersTail(members, false, e) + rest, false, open)
      == MembersTail(members, true, |open|) + Laid(rest, false, Outer(open))
    decreases members, 1
  {
    hide Laid, Quoted, Text, Tabs;
    if members == [] {
      assert MembersTail(members, false, e) + rest == [RBRACE] + rest;
      LaidMark(RBRACE, rest, open);
      assert MembersTail(members, true, |open|) == [LINE_FEED] + Tabs(|Outer(open)|) + [RBRACE];
    } else {
      var t, u := MembersText(members, false, e), JsonRoundTrip.Body(members, true, |open|);
      assert MembersTail(members, false, e) + rest == [COMMA] + (t + rest);
      LaidMark(COMMA, t + rest, open);
      LaidMembers(members, e, open, rest);
      ObjectText(members, true, |open| - 1);
      hide MembersText, JsonRoundTrip.Body;
      assert MembersTail(members, true, |open|) == [COMMA, LINE_FEED] + Tabs(|open|) + u;
      assert [COMMA, LINE_FEED] + Tabs(|open|) + (u + Laid(rest, false, Outer(open)))
        == MembersTail(members, true, |open|) + Laid(rest, false, Outer(open));
    }
  }

  /** The formatted text is the unformatted one laid out, and so its blanks stand exactly where Laid puts them. */
  lemma BlanksStand(v: Value)
    requires Printable(v)
    ensures Text(v, true, 0) == Laid(Text(v, false, 0), false, [])
  {
    LaidText(v, 0, [], []);
    assert Text(v, false, 0) + [] == Text(v, false, 0) && Laid([], false, []) == [];
    assert Text(v, true, 0) + [] == Text(v, true, 0);
  }
}
