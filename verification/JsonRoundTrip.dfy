/** Parsing what was printed gives the printed tree back, exactly up to the nesting limit. */
module JsonRoundTrip {
  import opened Bytes
  import opened JsonValue
  import opened JsonText
  import opened JsonParser

  // ----- blanks -----

  lemma AtFirst(c: bytes, o: nat, t: bytes)
    requires At(c, o, t) && t != []
    ensures o < |c| && c[o] == t[0]
  {
    assert c[o..o + |t|][0] == t[0];
  }

  /** Only blanks stand in [o, e). */
  predicate Blanks(c: bytes, o: nat, e: nat) {
    o <= e <= |c| && forall i :: o <= i < e ==> c[i] <= SPACE
  }

  lemma BlanksAt(c: bytes, o: nat, t: bytes)
    requires At(c, o, t) && forall i :: 0 <= i < |t| ==> t[i] <= SPACE
    ensures Blanks(c, o, o + |t|)
  {
    assert forall i :: o <= i < o + |t| ==> c[i] == c[o..o + |t|][i - o];
  }

  lemma {:induction false} BlankEndAt(c: bytes, o: nat, e: nat)
    requires Blanks(c, o, e) && e < |c| && c[e] > SPACE
    ensures BlankEnd(c, o) == e
    decreases e - o
  {
    if o < e { BlankEndAt(c, o + 1, e); }
  }

  /** Skipping blanks in front of a byte that is none ends at that byte. */
  lemma SkipBlanksAt(c: bytes, o: nat, e: nat)
    requires Blanks(c, o, e) && e < |c| && c[e] > SPACE
    ensures SkipBlanks(c, o) == e
  {
    BlankEndAt(c, o, e);
  }

  lemma NoBlanks(c: bytes, o: nat)
    requires o <= |c|
    ensures Blanks(c, o, o)
  {
  }

  lemma SkipNothing(c: bytes, o: nat)
    requires o < |c| && c[o] > SPACE
    ensures SkipBlanks(c, o) == o
  {
  }

  // ----- numbers -----

  lemma {:induction false} DecimalValue(n: nat)
    ensures DigitsValue(Decimal(n)) == n
  {
    var t := Decimal(n);
    if n >= 10 {
      DecimalValue(n / 10);
      assert t[..|t| - 1] == Decimal(n / 10);
    } else {
      assert t[..0] == [];
    }
  }

  function Power(k: nat): nat { if k == 0 then 1 else 10 * Power(k - 1) }

  lemma {:induction false} DecimalLength(n: nat, k: nat)
    requires 0 < k && n < Power(k)
    ensures |Decimal(n)| <= k
  {
    if n >= 10 {
      assert k > 1 by { assert Power(1) == 10 * Power(0) == 10; }
      DecimalLength(n / 10, k - 1);
    }
  }

  lemma IntTextLength(d: real)
    requires IsInt(d)
    ensures |IntText(ValueInt(d))| <= 11
  {
    var n := ValueInt(d);
    assert Power(10) == 10000000000 by {
      assert Power(3) == 1000 && Power(6) == 1000 * Power(3) && Power(9) == 1000 * Power(6);
    }
    DecimalLength(if n < 0 then -n else n, 10);
  }

  lemma {:induction false} DigitsEndAll(s: bytes, i: nat)
    requires i <= |s| && forall k :: i <= k < |s| ==> IsDigit(s[k])
    ensures DigitsEnd(s, i) == |s|
    decreases |s| - i
  {
    if i < |s| { DigitsEndAll(s, i + 1); }
  }

  lemma IntTextDigits(n: int)
    ensures
      var t, start := IntText(n), SignLength(IntText(n), 0);
      && start <= |t| && start == (if n < 0 then 1 else 0)
      && t[start..] == Decimal(if n < 0 then -n else n)
      && forall k :: start <= k < |t| ==> IsDigit(t[k])
  {
    var t := IntText(n);
    var digits := Decimal(if n < 0 then -n else n);
    var start := if n < 0 then 1 else 0;
    assert t[start..] == digits;
    assert forall k :: start <= k < |t| ==> t[k] == digits[k - start];
  }

  /** strtod reads all of what "%d" wrote, and gets the number back. */
  lemma StrtodIntText(n: int)
    ensures Strtod(IntText(n)) == (|IntText(n)|, n as real)
  {
    var t := IntText(n);
    var start := SignLength(t, 0);
    IntTextDigits(n);
    DigitsEndAll(t, start);
    DecimalValue(if n < 0 then -n else n);
    assert t[start..|t|] == t[start..];
    assert t[start..|t|] + [] == t[start..];
    hide DigitsEnd, DigitsValue, Decimal, SignLength;
  }

  lemma {:induction false} NumberSpanAt(c: bytes, o: nat, n: nat, limit: nat)
    requires o + n < |c| && n <= limit && !IsNumberByte(c[o + n])
    requires forall i :: o <= i < o + n ==> IsNumberByte(c[i])
    ensures NumberSpan(c, o, limit) == n
    decreases n
  {
    if n > 0 { NumberSpanAt(c, o + 1, n - 1, limit - 1); }
  }

  lemma NumberRoundTrip(c: bytes, o: nat, d: real)
    requires IsInt(d)
    requires At(c, o, IntText(ValueInt(d)))
    requires o + |IntText(ValueInt(d))| < |c| && !IsNumberByte(c[o + |IntText(ValueInt(d))|])
    ensures ParseNumber(c, o) == Ok(Num(d), o + |IntText(ValueInt(d))|)
  {
    hide Strtod, NumberSpan, ValueInt, Decimal;
    var t := IntText(ValueInt(d));
    IntTextLength(d);
    forall i | o <= i < o + |t| ensures IsNumberByte(c[i]) {
      assert c[i] == c[o..o + |t|][i - o];
    }
    NumberSpanAt(c, o, |t|, NUMBER_LIMIT);
    StrtodIntText(ValueInt(d));
  }

  // ----- strings -----

  lemma HexDigitValue(d: nat)
    requires d < 16
    ensures HexValue(HexDigit(d)) == Ok(d, 0)
  {
  }

  lemma Hex4EscapeByte(c: bytes, o: nat, b: byte)
    requires b < 32 && EscapeLetter(b) == 0
    requires o + 6 <= |c| && c[o..o + 6] == EscapeByte(b)
    ensures Hex4(c, o + 2) == b
    ensures c[o] == BACKSLASH && c[o + 1] == LOWER_U && forall i :: o + 2 <= i < o + 6 ==> c[i] != QUOTE && c[i] != BACKSLASH
  {
    var w := c[o..o + 6];
    assert w[0] == c[o] && w[1] == c[o + 1] && w[2] == c[o + 2] && w[3] == c[o + 3] && w[4] == c[o + 4] && w[5] == c[o + 5];
    HexDigitValue(b / 16);
    HexDigitValue(b % 16);
  }

  /** One escaped byte is read back as that byte by the second pass. */
  lemma DecodeEscapeByte(c: bytes, o: nat, b: byte, end: nat)
    requires b != NUL && At(c, o, EscapeByte(b)) && o + |EscapeByte(b)| <= end < |c|
    ensures DecodeOne(c, o, end) == Ok([b], o + |EscapeByte(b)|)
  {
    var t := EscapeByte(b);
    AtFirst(c, o, t);
    if |t| == 2 {
      assert c[o + 1] == c[o..o + 2][1];
    } else if |t| == 6 {
      Hex4EscapeByte(c, o, b);
    }
  }

  /** The first pass steps over one escaped byte. */
  lemma StringEndEscapeByte(c: bytes, o: nat, b: byte)
    requires At(c, o, EscapeByte(b)) && StringEnd(c, o + |EscapeByte(b)|).Ok?
    ensures StringEnd(c, o).Ok? && StringEnd(c, o).next == StringEnd(c, o + |EscapeByte(b)|).next
  {
    var t := EscapeByte(b);
    AtFirst(c, o, t);
    if |t| == 6 {
      Hex4EscapeByte(c, o, b);
      assert StringEnd(c, o + 4) == StringEnd(c, o + 5) == StringEnd(c, o + 6);
      assert StringEnd(c, o + 2) == StringEnd(c, o + 3) == StringEnd(c, o + 4);
    }
  }

  lemma StringEndAtQuote(c: bytes, o: nat)
    requires o < |c| && c[o] == QUOTE
    ensures StringEnd(c, o) == Ok(0, o)
  {
  }

  lemma {:induction false} EscapeRoundTrip(c: bytes, o: nat, s: bytes)
    requires NulFree(s) && At(c, o, Escape(s) + [QUOTE])
    ensures StringEnd(c, o).Ok? && StringEnd(c, o).next == o + |Escape(s)|
    ensures Decode(c, o, o + |Escape(s)|) == Ok(s, o + |Escape(s)|)
    decreases |s|
  {
    hide At, DecodeOne, StringEnd, EscapeByte;
    AtSplit(c, o, Escape(s), [QUOTE]);
    AtFirst(c, o + |Escape(s)|, [QUOTE]);
    if s == [] {
      StringEndAtQuote(c, o);
    } else {
      var first := EscapeByte(s[0]);
      var end := o + |Escape(s)|;
      assert Escape(s) + [QUOTE] == first + (Escape(s[1..]) + [QUOTE]);
      AtSplit(c, o, first, Escape(s[1..]) + [QUOTE]);
      EscapeRoundTrip(c, o + |first|, s[1..]);
      DecodeEscapeByte(c, o, s[0], end);
      StringEndEscapeByte(c, o, s[0]);
      assert [s[0]] + s[1..] == s;
    }
  }

  lemma QuotedRoundTrip(c: bytes, o: nat, s: bytes)
    requires NulFree(s) && At(c, o, Quoted(s))
    ensures ParseString(c, o) == Ok(s, o + |Quoted(s)|)
  {
    hide At, Escape, Decode, StringEnd;
    assert Quoted(s) == [QUOTE] + (Escape(s) + [QUOTE]);
    AtHead(c, o, QUOTE, Escape(s) + [QUOTE]);
    EscapeRoundTrip(c, o + 1, s);
  }

  // ----- values -----

  lemma PrintableItems(items: seq<Value>)
    requires items != [] && Printable(Arr(items))
    ensures Printable(items[0]) && Printable(Arr(items[1..]))
  {
  }

  lemma PrintableMembers(members: seq<Member<Value>>)
    requires members != [] && Printable(Obj(members))
    ensures NulFree(members[0].key) && Printable(members[0].item) && Printable(Obj(members[1..]))
  {
  }

  /** What a value's text can start with. */
  predicate IsValueStart(b: byte) {
    b == NULL_TEXT[0] || b == FALSE_TEXT[0] || b == TRUE_TEXT[0] || b == QUOTE
    || b == MINUS || IsDigit(b) || b == LBRACKET || b == LBRACE
  }

  lemma TextStart(v: Value, format: bool, depth: nat)
    requires Printable(v)
    ensures Text(v, format, depth) != [] && IsValueStart(Text(v, format, depth)[0])
    ensures Text(v, format, depth)[0] > SPACE
  {
  }

  /** A byte that can follow a value: it neither extends a number nor is part of one. */
  predicate Delimited(c: bytes, o: nat) { o < |c| && !IsNumberByte(c[o]) }

  lemma LiteralAbsent(c: bytes, o: nat, t: bytes)
    requires o < |c| && t != [] && c[o] != t[0]
    ensures !At(c, o, t)
  {
    if At(c, o, t) { AtFirst(c, o, t); }
  }

  lemma LiteralsAbsent(c: bytes, o: nat)
    requires o < |c| && c[o] !in [NULL_TEXT[0], FALSE_TEXT[0], TRUE_TEXT[0]]
    ensures !At(c, o, NULL_TEXT) && !At(c, o, FALSE_TEXT) && !At(c, o, TRUE_TEXT)
  {
    assert NULL_TEXT[0] in [NULL_TEXT[0], FALSE_TEXT[0], TRUE_TEXT[0]];
    assert FALSE_TEXT[0] in [NULL_TEXT[0], FALSE_TEXT[0], TRUE_TEXT[0]];
    assert TRUE_TEXT[0] in [NULL_TEXT[0], FALSE_TEXT[0], TRUE_TEXT[0]];
    LiteralAbsent(c, o, NULL_TEXT);
    LiteralAbsent(c, o, FALSE_TEXT);
    LiteralAbsent(c, o, TRUE_TEXT);
  }

  /** The parse of a text that should give `value`, of which `nest` more containers are open. */
  function Expected<T>(depth: int, nest: nat, value: T, next: nat): Parsed<T> {
    if depth + nest <= NESTING_LIMIT then Ok(value, next) else Fail
  }

  lemma ScalarRoundTrip(c: bytes, o: nat, v: Value, format: bool, indent: nat, depth: int)
    requires !v.Arr? && !v.Obj?
    requires Printable(v) && At(c, o, Text(v, format, indent)) && Delimited(c, o + |Text(v, format, indent)|)
    ensures ParseValue(c, o, depth) == Ok(v, o + |Text(v, format, indent)|)
  {
    hide At, ParseNumber, ParseString, ParseItems, ParseMembers, SkipBlanks;
    AtFirst(c, o, Text(v, format, indent));
    match v
    case Null =>
    case Bool(b) =>
      LiteralAbsent(c, o, NULL_TEXT);
      if b { LiteralAbsent(c, o, FALSE_TEXT); }
    case Num(d) =>
      LiteralsAbsent(c, o);
      NumberRoundTrip(c, o, d);
    case Str(s) =>
      LiteralsAbsent(c, o);
      QuotedRoundTrip(c, o, s);
  }

  lemma ContainerDispatch(c: bytes, o: nat, depth: int)
    requires o < |c|
    ensures c[o] == LBRACKET ==> ParseValue(c, o, depth) == ParseArray(c, o, depth)
    ensures c[o] == LBRACE ==> ParseValue(c, o, depth) == ParseObject(c, o, depth)
  {
    if c[o] == LBRACKET || c[o] == LBRACE { LiteralsAbsent(c, o); }
  }

  lemma {:induction false} ValueRoundTrip(c: bytes, o: nat, v: Value, format: bool, indent: nat, depth: int)
    requires Printable(v) && At(c, o, Text(v, format, indent)) && Delimited(c, o + |Text(v, format, indent)|)
    requires depth <= NESTING_LIMIT
    ensures ParseValue(c, o, depth) == Expected(depth, Nest(v), v, o + |Text(v, format, indent)|)
    decreases v, 0
  {
    hide At, Printable, Delimited, ParseValue, ParseItems, ParseMembers, SkipBlanks, ItemsText, MembersText, IntText, Quoted;
    match v
    case Arr(items) =>
      AtFirst(c, o, Text(v, format, indent));
      ContainerDispatch(c, o, depth);
      ArrayRoundTrip(c, o, items, format, indent, depth);
    case Obj(members) =>
      AtFirst(c, o, Text(v, format, indent));
      ContainerDispatch(c, o, depth);
      ObjectRoundTrip(c, o, members, format, indent, depth);
    case _ =>
      ScalarRoundTrip(c, o, v, format, indent, depth);
  }

  /** What parse_array does behind the opening bracket. */
  lemma {:induction false} ArrayRoundTrip(
      c: bytes, o: nat, items: seq<Value>, format: bool, indent: nat, depth: int)
    requires Printable(Arr(items)) && At(c, o, Text(Arr(items), format, indent))
    requires depth <= NESTING_LIMIT
    ensures
      var first := SkipBlanks(c, o + 1);
      var next := o + |Text(Arr(items), format, indent)|;
      first < |c|
      && if items == [] then c[first] == RBRACKET && first + 1 == next
         else c[first] != RBRACKET
              && (depth < NESTING_LIMIT ==>
                  ParseItems(c, first, depth + 1) == Expected(depth + 1, NestItems(items), items, next))
    decreases items, 1
  {
    hide At, ParseItems, SkipBlanks, Blanks, Printable;
    if items != [] { PrintableItems(items); }
    var rest := ItemsText(items, format, indent + 1);
    AtHead(c, o, LBRACKET, rest);
    if items != [] { TextStart(items[0], format, indent + 1); }
    AtFirst(c, o + 1, rest);
    SkipNothing(c, o + 1);
    if items != [] && depth < NESTING_LIMIT {
      NoBlanks(c, o + 1);
      ItemsRoundTrip(c, o + 1, o + 1, items, format, indent + 1, depth + 1);
    }
  }

  /** The pieces of the text of items. */
  lemma SplitItems(c: bytes, start: nat, items: seq<Value>, format: bool, indent: nat)
    requires items != [] && Printable(Arr(items))
    requires At(c, start, ItemsText(items, format, indent))
    ensures At(c, start, Text(items[0], format, indent)) && c[start] > SPACE
    ensures
      var after := start + |Text(items[0], format, indent)|;
      var end := start + |ItemsText(items, format, indent)|;
      var next := after + |Separator(format)|;
      Delimited(c, after) && SkipBlanks(c, after) == after
      && if |items| == 1 then c[after] == RBRACKET && after + 1 == end
         else c[after] == COMMA && Blanks(c, after + 1, next) && At(c, next, ItemsText(items[1..], format, indent))
              && next + |ItemsText(items[1..], format, indent)| == end
  {
    hide At, Text, SkipBlanks, Blanks, Printable;
    PrintableItems(items);
    var t := Text(items[0], format, indent);
    var more := items[1..];
    var after := start + |t|;
    AtSplit(c, start, t, ItemsTail(more, format, indent));
    AtFirst(c, after, ItemsTail(more, format, indent));
    TextStart(items[0], format, indent);
    AtFirst(c, start, t);
    SkipNothing(c, after);
    if more != [] {
      AtSplit(c, after, Separator(format), ItemsText(more, format, indent));
      SeparatorBlanks(c, after, format);
    }
  }

  /** Items whose text starts at `start`, behind the blanks in [o, start). */
  lemma {:induction false} ItemsRoundTrip(
      c: bytes, o: nat, start: nat, items: seq<Value>, format: bool, indent: nat, depth: int)
    requires items != [] && Printable(Arr(items))
    requires Blanks(c, o, start) && At(c, start, ItemsText(items, format, indent))
    requires depth <= NESTING_LIMIT
    ensures ParseItems(c, o, depth) ==
      Expected(depth, NestItems(items), items, start + |ItemsText(items, format, indent)|)
    decreases items, 0
  {
    hide At, Text, ItemsText, ParseValue, SkipBlanks, Blanks, Nest, Separator, Printable;
    PrintableItems(items);
    SplitItems(c, start, items, format, indent);
    SkipBlanksAt(c, o, start);
    ValueRoundTrip(c, start, items[0], format, indent, depth);
    assert NestItems(items) == Max(Nest(items[0]), NestItems(items[1..]));
    if |items| == 1 {
      assert items == [items[0]] && NestItems(items[1..]) == 0;
    } else {
      assert [items[0]] + items[1..] == items;
      var after := start + |Text(items[0], format, indent)|;
      ItemsRoundTrip(c, after + 1, after + |Separator(format)|, items[1..], format, indent, depth);
    }
  }

  lemma SeparatorBlanks(c: bytes, o: nat, format: bool)
    requires At(c, o, Separator(format))
    ensures Blanks(c, o + 1, o + |Separator(format)|)
  {
    AtSplit(c, o, [COMMA], if format then [SPACE] else []);
    BlanksAt(c, o + 1, if format then [SPACE] else []);
  }

  /** A new line and an indentation are blanks. */
  lemma NewLineBlanks(c: bytes, o: nat, format: bool, depth: nat, rest: bytes)
    requires At(c, o, NewLine(format) + (Indent(format, depth) + rest))
    ensures
      var e := o + |NewLine(format)| + |Indent(format, depth)|;
      Blanks(c, o, e) && At(c, e, rest)
  {
    AtSplit(c, o, NewLine(format), Indent(format, depth) + rest);
    AtSplit(c, o + |NewLine(format)|, Indent(format, depth), rest);
    BlanksAt(c, o, NewLine(format));
    BlanksAt(c, o + |NewLine(format)|, Indent(format, depth));
  }

  /** The text of members behind the first indentation. */
  function Body(members: seq<Member<Value>>, format: bool, depth: nat): bytes
    requires members != [] && Printable(Obj(members)) && depth > 0
  {
    Quoted(members[0].key)
    + (Colon(format) + (Text(members[0].item, format, depth) + MembersTail(members[1..], format, depth)))
  }

  /** What parse_object does behind the opening brace. */
  lemma {:induction false} ObjectRoundTrip(
      c: bytes, o: nat, members: seq<Member<Value>>, format: bool, indent: nat, depth: int)
    requires Printable(Obj(members)) && At(c, o, Text(Obj(members), format, indent))
    requires depth <= NESTING_LIMIT
    ensures
      var first := SkipBlanks(c, o + 1);
      var next := o + |Text(Obj(members), format, indent)|;
      first < |c|
      && if members == [] then c[first] == RBRACE && first + 1 == next
         else c[first] != RBRACE
              && (depth < NESTING_LIMIT ==>
                  ParseMembers(c, first, depth + 1) == Expected(depth + 1, NestMembers(members), members, next))
    decreases members, 1
  {
    hide At, ParseMembers, SkipBlanks, Blanks, Indent, Printable;
    if members != [] { PrintableMembers(members); }
    AtHead(c, o, LBRACE, NewLine(format) + MembersText(members, format, indent + 1));
    if members == [] {
      NewLineBlanks(c, o + 1, format, indent, [RBRACE]);
      var e := o + 1 + |NewLine(format)| + |Indent(format, indent)|;
      AtFirst(c, e, [RBRACE]);
      SkipBlanksAt(c, o + 1, e);
    } else {
      NewLineBlanks(c, o + 1, format, indent + 1, Body(members, format, indent + 1));
      var e := o + 1 + |NewLine(format)| + |Indent(format, indent + 1)|;
      AtFirst(c, e, Body(members, format, indent + 1));
      assert Body(members, format, indent + 1)[0] == Quoted(members[0].key)[0] == QUOTE;
      SkipBlanksAt(c, o + 1, e);
      NoBlanks(c, e);
      if depth < NESTING_LIMIT {
        MembersRoundTrip(c, e, e, members, format, indent + 1, depth + 1);
      }
    }
  }

  /** A name at `start`, behind the blanks in [o, start), and the colon behind it. */
  lemma KeyRoundTrip(c: bytes, o: nat, start: nat, key: bytes, rest: bytes, format: bool)
    requires NulFree(key) && Blanks(c, o, start)
    requires At(c, start, Quoted(key) + (Colon(format) + rest))
    ensures
      var colon := start + |Quoted(key)|;
      ParseString(c, SkipBlanks(c, o)) == Ok(key, colon)
      && SkipBlanks(c, colon) == colon < |c| && c[colon] == COLON
      && Blanks(c, colon + 1, colon + |Colon(format)|) && At(c, colon + |Colon(format)|, rest)
  {
    hide At, ParseString, SkipBlanks, Blanks;
    AtSplit(c, start, Quoted(key), Colon(format) + rest);
    AtFirst(c, start, Quoted(key));
    SkipBlanksAt(c, o, start);
    QuotedRoundTrip(c, start, key);
    var colon := start + |Quoted(key)|;
    AtSplit(c, colon, Colon(format), rest);
    AtFirst(c, colon, Colon(format));
    SkipNothing(c, colon);
    ColonBlanks(c, colon, format);
  }

  /** One member whose name starts at `start`, behind the blanks in [o, start). */
  lemma {:induction false} MemberRoundTrip(
      c: bytes, o: nat, start: nat, m: Member<Value>, tail: bytes, format: bool, indent: nat, depth: int)
    requires NulFree(m.key) && Printable(m.item) && Blanks(c, o, start)
    requires At(c, start, Quoted(m.key) + (Colon(format) + (Text(m.item, format, indent) + tail)))
    requires tail != [] && !IsNumberByte(tail[0])
    requires depth <= NESTING_LIMIT
    ensures
      var next := start + |Quoted(m.key)| + |Colon(format)| + |Text(m.item, format, indent)|;
      ParseMember(c, o, depth) == Expected(depth, Nest(m.item), m, next) && At(c, next, tail)
    decreases m, 0
  {
    hide At, Text, ParseValue, ParseString, SkipBlanks, Blanks, Nest, Quoted, Colon;
    var t := Text(m.item, format, indent);
    KeyRoundTrip(c, o, start, m.key, t + tail, format);
    var colon := start + |Quoted(m.key)|;
    var value := colon + |Colon(format)|;
    AtSplit(c, value, t, tail);
    AtFirst(c, value + |t|, tail);
    TextStart(m.item, format, indent);
    AtFirst(c, value, t);
    SkipBlanksAt(c, colon + 1, value);
    ValueRoundTrip(c, value, m.item, format, indent, depth);
  }

  lemma ColonBlanks(c: bytes, o: nat, format: bool)
    requires At(c, o, Colon(format))
    ensures Blanks(c, o + 1, o + |Colon(format)|)
  {
    AtSplit(c, o, [COLON], if format then [TAB] else []);
    BlanksAt(c, o + 1, if format then [TAB] else []);
  }

  lemma TailStart(members: seq<Member<Value>>, format: bool, indent: nat)
    requires Printable(Obj(members)) && indent > 0
    ensures var t := MembersTail(members, format, indent); t != [] && !IsNumberByte(t[0])
  {
    if members == [] && !format {
      assert MembersTail(members, format, indent) == [RBRACE];
    }
  }

  /** What follows the last member is the closing brace, behind blanks. */
  lemma LastTail(c: bytes, o: nat, format: bool, indent: nat)
    requires indent > 0 && At(c, o, MembersTail([], format, indent))
    ensures
      var e := SkipBlanks(c, o);
      e < |c| && c[e] == RBRACE && e + 1 == o + |MembersTail([], format, indent)|
  {
    var e := o + |NewLine(format)| + |Indent(format, indent - 1)|;
    assert MembersTail([], format, indent) == NewLine(format) + (Indent(format, indent - 1) + [RBRACE]);
    NewLineBlanks(c, o, format, indent - 1, [RBRACE]);
    AtFirst(c, e, [RBRACE]);
    SkipBlanksAt(c, o, e);
  }

  /** What follows any other member is a comma, blanks, and the body of the rest. */
  lemma MoreTail(c: bytes, o: nat, members: seq<Member<Value>>, format: bool, indent: nat) returns (e: nat)
    requires indent > 0 && members != [] && Printable(Obj(members))
    requires At(c, o, MembersTail(members, format, indent))
    ensures o < |c| && c[o] == COMMA && SkipBlanks(c, o) == o
    ensures Blanks(c, o + 1, e) && At(c, e, Body(members, format, indent))
    ensures e + |Body(members, format, indent)| == o + |MembersTail(members, format, indent)|
  {
    hide At, Blanks, SkipBlanks, Printable, Quoted, Indent, NewLine, Colon, Text;
    PrintableMembers(members);
    assert MembersText(members, format, indent) == Indent(format, indent) + Body(members, format, indent);
    AtHead(c, o, COMMA, NewLine(format) + MembersText(members, format, indent));
    NewLineBlanks(c, o + 1, format, indent, Body(members, format, indent));
    SkipNothing(c, o);
    e := o + 1 + |NewLine(format)| + |Indent(format, indent)|;
  }

  lemma {:induction false} MembersRoundTrip(
      c: bytes, o: nat, start: nat, members: seq<Member<Value>>, format: bool, indent: nat, depth: int)
    requires members != [] && Printable(Obj(members)) && indent > 0
    requires Blanks(c, o, start) && At(c, start, Body(members, format, indent))
    requires depth <= NESTING_LIMIT
    ensures ParseMembers(c, o, depth) ==
      Expected(depth, NestMembers(members), members, start + |Body(members, format, indent)|)
    decreases members, 0
  {
    hide At, Text, ParseMember, SkipBlanks, Blanks, Nest, Quoted, Indent, MembersTail, Printable;
    PrintableMembers(members);
    var m := members[0];
    var more := members[1..];
    var tail := MembersTail(more, format, indent);
    TailStart(more, format, indent);
    MemberRoundTrip(c, o, start, m, tail, format, indent, depth);
    var after := start + |Quoted(m.key)| + |Colon(format)| + |Text(m.item, format, indent)|;
    assert [m] + more == members;
    assert NestMembers(members) == Max(Nest(m.item), NestMembers(more));
    if more == [] {
      assert members == [m] && NestMembers(more) == 0;
      LastTail(c, after, format, indent);
    } else {
      var next := MoreTail(c, after, more, format, indent);
      MembersRoundTrip(c, after + 1, next, more, format, indent, depth);
    }
  }

  /**
   * Parsing a printed tree gives the tree back, members in order, when at most 1000 containers are
   * nested, and is refused otherwise; for the formatted and for the unformatted text.
   */
  lemma RoundTrip(v: Value, format: bool)
    requires Printable(v)
    ensures Parse(Text(v, format, 0)) ==
      if Nest(v) <= 1000 then Ok(v, |Text(v, format, 0)|) else Fail
  {
    var t := Text(v, format, 0);
    var c := t + [NUL];
    assert At(c, 0, t) by { assert c[0..|t|] == t; }
    hide At, ParseValue, SkipBlanks, Text, Nest, Printable;
    TextStart(v, format, 0);
    AtFirst(c, 0, t);
    SkipNothing(c, 0);
    LiteralAbsent(c, 0, BOM);
    ValueRoundTrip(c, 0, v, format, 0, 0);
  }

  /** The same with require_null_terminated: the parse ends on the terminator. */
  lemma RoundTripNulTerminated(v: Value, format: bool)
    requires Printable(v)
    ensures ParseDocument(Text(v, format, 0) + [NUL], true) == Parse(Text(v, format, 0))
  {
    RoundTrip(v, format);
    var t := Text(v, format, 0);
    var c := t + [NUL];
    assert BlankEnd(c, |t|) == |c| by { assert BlankEnd(c, |t| + 1) == |c|; }
  }

  lemma ReadBack(v: Value, format: bool, depth: int)
    requires Printable(v) && depth + Nest(v) <= NESTING_LIMIT
    ensures ParseValue(Text(v, format, 0) + [NUL], 0, depth) == Ok(v, |Text(v, format, 0)|)
  {
    var t := Text(v, format, 0);
    var c := t + [NUL];
    assert At(c, 0, t) by { assert c[0..|t|] == t; }
    assert Delimited(c, |t|);
    hide At, Text, Nest, ParseValue, Printable, Delimited;
    ValueRoundTrip(c, 0, v, format, 0, depth);
  }

  /** Two trees with the same text are the same tree, however deep: a parse that starts below depth 0 has room for them. */
  lemma TextInjective(v: Value, w: Value, format: bool)
    requires Printable(v) && Printable(w)
    requires Text(v, format, 0) == Text(w, format, 0)
    ensures v == w
  {
    hide Text, Nest, ParseValue, Printable;
    var depth := NESTING_LIMIT - Max(Nest(v), Nest(w));
    ReadBack(v, format, depth);
    ReadBack(w, format, depth);
  }
}
