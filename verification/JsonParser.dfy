/** What the parser of cJSON.c computes, as pure functions of the buffer, the offset and the nesting depth. */
module JsonParser {
  import opened Bytes
  import opened JsonValue
  import Bits

  /** A parse function fails, or returns a value and the offset behind it, or reads the byte behind the buffer. */
  datatype Parsed<T> = Fail | Ok(value: T, next: nat) | Overread

  /** What becomes of a part that is not Ok becomes of the whole. */
  function Failed<T, U>(r: Parsed<T>): (f: Parsed<U>)
    requires !r.Ok?
    ensures !f.Ok? && (f.Fail? <==> r.Fail?)
  {
    if r.Fail? then Fail else Overread
  }

  // ----- whitespace -----

  /** The first offset from `o` on whose byte is above 32. */
  function BlankEnd(c: bytes, o: nat): (e: nat)
    requires o <= |c|
    ensures o <= e <= |c|
    ensures e < |c| ==> c[e] > SPACE
    ensures forall i :: o <= i < e ==> c[i] <= SPACE
    decreases |c| - o
  {
    if o < |c| && c[o] <= SPACE then BlankEnd(c, o + 1) else o
  }

  /** buffer_skip_whitespace: it stays on the last byte when only blanks are left. */
  function SkipBlanks(c: bytes, o: nat): (e: nat)
    ensures o <= e
    ensures o <= |c| ==> e <= |c|
    ensures o < |c| ==> e < |c|
  {
    if o >= |c| then o
    else
      var e := BlankEnd(c, o);
      if e == |c| then e - 1 else e
  }

  // ----- numbers -----

  predicate IsNumberByte(b: byte) {
    IsDigit(b) || b == PLUS || b == MINUS || b == LOWER_E || b == UPPER_E || b == DOT
  }

  /** How many of at most `limit` bytes from `o` on can belong to a number. */
  function NumberSpan(c: bytes, o: nat, limit: nat): (n: nat)
    ensures n <= limit
    ensures o <= |c| ==> o + n <= |c|
    ensures o > |c| ==> n == 0
    decreases limit
  {
    if limit > 0 && o < |c| && IsNumberByte(c[o]) then 1 + NumberSpan(c, o + 1, limit - 1) else 0
  }

  function DigitsEnd(s: bytes, i: nat): (e: nat)
    requires i <= |s|
    ensures i <= e <= |s|
    ensures forall k :: i <= k < e ==> IsDigit(s[k])
    decreases |s| - i
  {
    if i < |s| && IsDigit(s[i]) then DigitsEnd(s, i + 1) else i
  }

  function DigitsValue(s: bytes): nat
    requires forall k :: 0 <= k < |s| ==> IsDigit(s[k])
  {
    if s == [] then 0
    else
      assert IsDigit(s[|s| - 1]);
      10 * DigitsValue(s[..|s| - 1]) + (s[|s| - 1] - ZERO)
  }

  function Pow10(e: nat): (r: real)
    ensures r >= 1.0
  {
    if e == 0 then 1.0 else 10.0 * Pow10(e - 1)
  }

  function Scale(m: real, e: int): real {
    if e >= 0 then m * Pow10(e) else m / Pow10(-e)
  }

  function SignLength(s: bytes, i: nat): (n: nat)
    ensures n <= 1 && (i <= |s| ==> i + n <= |s|)
  {
    if i < |s| && (s[i] == PLUS || s[i] == MINUS) then 1 else 0
  }

  /** strtod in the C locale on a string of number bytes: how much it reads, and the exact value (before rounding). */
  function Strtod(s: bytes): (r: (nat, real))
    ensures r.0 <= |s|
  {
    var start := SignLength(s, 0);
    var whole := DigitsEnd(s, start);
    var hasDot := whole < |s| && s[whole] == DOT;
    var end := if hasDot then DigitsEnd(s, whole + 1) else whole;
    var fraction := if hasDot then s[whole + 1..end] else [];
    if whole == start && fraction == [] then (0, 0.0)
    else
      var digits := s[start..whole] + fraction;
      assert forall k :: 0 <= k < whole - start ==> digits[k] == s[start + k];
      assert forall k :: whole - start <= k < |digits| ==>
        digits[k] == fraction[k - (whole - start)] && IsDigit(fraction[k - (whole - start)]);
      var m := Scale(DigitsValue(digits) as real, -|fraction|);
      var signed := if start == 1 && s[0] == MINUS then -m else m;
      if end < |s| && (s[end] == LOWER_E || s[end] == UPPER_E) then
        var expStart := end + 1 + SignLength(s, end + 1);
        var expEnd := DigitsEnd(s, expStart);
        if expEnd == expStart then (end, signed)
        else
          var e: int := DigitsValue(s[expStart..expEnd]);
          (expEnd, Scale(signed, if s[end + 1] == MINUS then -e else e))
      else (end, signed)
  }

  /** sizeof(number_c_string) - 1 */
  const NUMBER_LIMIT: nat := 63

  function ParseNumber(c: bytes, o: nat): (r: Parsed<Value>)
    requires o < |c|
    ensures !r.Overread?
  {
    var (used, d) := Strtod(c[o..o + NumberSpan(c, o, NUMBER_LIMIT)]);
    if used == 0 then Fail else Ok(Num(d), o + used)
  }

  // ----- strings -----

  /** The offset of the quote that ends a string whose content starts at `i` (first pass of parse_string). */
  function StringEnd(c: bytes, i: nat): (r: Parsed<nat>)
    ensures r.Ok? ==> i <= r.next < |c| && c[r.next] == QUOTE && r.value <= r.next - i
    ensures !r.Overread?
    decreases |c| - i
  {
    if i >= |c| then Fail
    else if c[i] == QUOTE then Ok(0, i)
    else if c[i] == BACKSLASH then
      if i + 1 >= |c| then Fail
      else
        var r := StringEnd(c, i + 2);
        if !r.Ok? then Fail else Ok(r.value + 1, r.next)
    else StringEnd(c, i + 1)
  }

  function HexValue(b: byte): (h: Parsed<nat>)
    ensures h.Ok? ==> h.value < 16
  {
    if IsDigit(b) then Ok(b - ZERO, 0)
    else if UPPER_A <= b <= UPPER_F then Ok(10 + b - UPPER_A, 0)
    else if LOWER_A <= b <= LOWER_F then Ok(10 + b - LOWER_A, 0)
    else Fail
  }

  /** parse_hex4: 0 when one of the four bytes is not a hexadecimal digit. */
  function Hex4(c: bytes, i: nat): (h: nat)
    requires i + 4 <= |c|
    ensures h < 0x1_0000
  {
    var a, b, d, e := HexValue(c[i]), HexValue(c[i + 1]), HexValue(c[i + 2]), HexValue(c[i + 3]);
    if !a.Ok? || !b.Ok? || !d.Ok? || !e.Ok? then 0
    else a.value * 0x1000 + b.value * 0x100 + d.value * 0x10 + e.value
  }

  /** What the encoding loop of utf16_literal_to_utf8 writes. */
  function Utf8(codepoint: nat): (t: bytes)
    requires codepoint <= 0x10FFFF
    ensures 1 <= |t| <= 4
    ensures |t| == if codepoint < 0x80 then 1 else if codepoint < 0x800 then 2 else if codepoint < 0x1_0000 then 3 else 4
  {
    if codepoint < 0x80 then [codepoint]
    else if codepoint < 0x800 then [0xC0 + codepoint / 64, 0x80 + codepoint % 64]
    else if codepoint < 0x1_0000 then
      [0xE0 + codepoint / 64 / 64, 0x80 + codepoint / 64 % 64, 0x80 + codepoint % 64]
    else
      [0xF0 + codepoint / 64 / 64 / 64, 0x80 + codepoint / 64 / 64 % 64, 0x80 + codepoint / 64 % 64, 0x80 + codepoint % 64]
  }

  predicate IsHighSurrogate(u: nat) { 0xD800 <= u <= 0xDBFF }
  predicate IsLowSurrogate(u: nat) { 0xDC00 <= u <= 0xDFFF }

  /** The code point of a surrogate pair. */
  function PairCodePoint(high: nat, low: nat): (u: nat)
    requires IsHighSurrogate(high) && IsLowSurrogate(low)
    ensures 0x1_0000 <= u <= 0x10FFFF
    ensures u == 0x1_0000 + (high % 0x400) * 0x400 + low % 0x400
  {
    Bits.JoinedTens(high, low);
    0x1_0000 + Bits.Or(Bits.ShiftLeft(Bits.And(high, 0x3FF), 10), Bits.And(low, 0x3FF))
  }

  /** utf16_literal_to_utf8 on an escape at `p` in a string that ends at `end`: the bytes, and the offset behind it. */
  function Utf16Literal(c: bytes, p: nat, end: nat): (r: Parsed<bytes>)
    requires p < end < |c|
    ensures r.Ok? ==> (r.next == p + 6 && |r.value| <= 3) || (r.next == p + 12 && |r.value| == 4)
    ensures r.Ok? ==> r.next <= end
  {
    if end - p < 6 then Fail
    else
      var first := Hex4(c, p + 2);
      if IsLowSurrogate(first) then Fail
      else if IsHighSurrogate(first) then
        if end - (p + 6) < 6 || c[p + 6] != BACKSLASH || c[p + 7] != LOWER_U then Fail
        else
          var second := Hex4(c, p + 8);
          if !IsLowSurrogate(second) then Fail
          else Ok(Utf8(PairCodePoint(first, second)), p + 12)
      else Ok(Utf8(first), p + 6)
  }

  /** The byte that a two character escape stands for, or Fail. */
  function UnescapeLetter(b: byte): Parsed<byte> {
    if b == LOWER_B then Ok(BACKSPACE, 0)
    else if b == LOWER_F then Ok(FORM_FEED, 0)
    else if b == LOWER_N then Ok(LINE_FEED, 0)
    else if b == LOWER_R then Ok(CARRIAGE_RETURN, 0)
    else if b == LOWER_T then Ok(TAB, 0)
    else if b == QUOTE || b == BACKSLASH || b == SLASH then Ok(b, 0)
    else Fail
  }

  /** One step of the second pass of parse_string: the bytes for what stands at `p`, and the offset behind it. */
  function DecodeOne(c: bytes, p: nat, end: nat): (r: Parsed<bytes>)
    requires p < end < |c|
    ensures r.Ok? ==> r.next > p
  {
    if c[p] != BACKSLASH then Ok([c[p]], p + 1)
    else if c[p + 1] == LOWER_U then Utf16Literal(c, p, end)
    else
      var u := UnescapeLetter(c[p + 1]);
      if !u.Ok? then Fail else Ok([u.value], p + 2)
  }

  /** The second pass of parse_string: what it writes for the content in [p, end). */
  function Decode(c: bytes, p: nat, end: nat): Parsed<bytes>
    requires end < |c|
    decreases |c| - p
  {
    if p >= end then Ok([], p)
    else
      var one := DecodeOne(c, p, end);
      if !one.Ok? then Fail
      else
        var rest := Decode(c, one.next, end);
        if !rest.Ok? then Fail else Ok(one.value + rest.value, rest.next)
  }

  /** parse_string, whose first byte is read without a test against the length. */
  function ParseString(c: bytes, o: nat): (r: Parsed<bytes>)
    ensures r.Ok? ==> o < r.next <= |c|
    ensures r.Overread? <==> o >= |c|
  {
    if o >= |c| then Overread
    else if c[o] != QUOTE then Fail
    else
      var end := StringEnd(c, o + 1);
      if !end.Ok? then Fail
      else
        var out := Decode(c, o + 1, end.next);
        if !out.Ok? then Fail else Ok(UpToNul(out.value), end.next + 1)
  }

  // ----- values -----

  function ParseValue(c: bytes, o: nat, depth: int): (r: Parsed<Value>)
    ensures r.Ok? ==> o < r.next <= |c|
    decreases |c| - o, 1
  {
    if At(c, o, NULL_TEXT) then Ok(Null, o + 4)
    else if At(c, o, FALSE_TEXT) then Ok(Bool(false), o + 5)
    else if At(c, o, TRUE_TEXT) then Ok(Bool(true), o + 4)
    else if o >= |c| then Fail
    else if c[o] == QUOTE then
      var s := ParseString(c, o);
      if !s.Ok? then Failed(s) else Ok(Str(s.value), s.next)
    else if c[o] == MINUS || IsDigit(c[o]) then ParseNumber(c, o)
    else if c[o] == LBRACKET then ParseArray(c, o, depth)
    else if c[o] == LBRACE then ParseObject(c, o, depth)
    else Fail
  }

  function ParseArray(c: bytes, o: nat, depth: int): (r: Parsed<Value>)
    requires o < |c|
    ensures r.Ok? ==> o < r.next <= |c|
    decreases |c| - o, 0
  {
    if depth >= NESTING_LIMIT then Fail
    else
      var first := SkipBlanks(c, o + 1);
      if first >= |c| then Fail
      else if c[first] == RBRACKET then Ok(Arr([]), first + 1)
      else
        var items := ParseItems(c, first, depth + 1);
        if !items.Ok? then Failed(items) else Ok(Arr(items.value), items.next)
  }

  function ParseObject(c: bytes, o: nat, depth: int): (r: Parsed<Value>)
    requires o < |c|
    ensures r.Ok? ==> o < r.next <= |c|
    decreases |c| - o, 0
  {
    if depth >= NESTING_LIMIT then Fail
    else
      var first := SkipBlanks(c, o + 1);
      if first >= |c| then Fail
      else if c[first] == RBRACE then Ok(Obj([]), first + 1)
      else
        var members := ParseMembers(c, first, depth + 1);
        if !members.Ok? then Failed(members) else Ok(Obj(members.value), members.next)
  }

  /** The items from `o` on, up to and including the closing bracket. */
  function ParseItems(c: bytes, o: nat, depth: int): (r: Parsed<seq<Value>>)
    ensures r.Ok? ==> o < r.next <= |c|
    decreases |c| - o, 2
  {
    var v := ParseValue(c, SkipBlanks(c, o), depth);
    if !v.Ok? then Failed(v)
    else
      var after := SkipBlanks(c, v.next);
      if after >= |c| then Fail
      else if c[after] == COMMA then
        var rest := ParseItems(c, after + 1, depth);
        if !rest.Ok? then Failed(rest) else Ok([v.value] + rest.value, rest.next)
      else if c[after] == RBRACKET then Ok([v.value], after + 1)
      else Fail
  }

  /** One `name : value`. */
  function ParseMember(c: bytes, o: nat, depth: int): (r: Parsed<Member<Value>>)
    ensures r.Ok? ==> o < r.next <= |c|
    decreases |c| - o, 2
  {
    var key := ParseString(c, SkipBlanks(c, o));
    if !key.Ok? then Failed(key)
    else
      var colon := SkipBlanks(c, key.next);
      if colon >= |c| || c[colon] != COLON then Fail
      else
        var v := ParseValue(c, SkipBlanks(c, colon + 1), depth);
        if !v.Ok? then Failed(v) else Ok(Member(key.value, v.value), v.next)
  }

  /** The members from `o` on, up to and including the closing brace. */
  function ParseMembers(c: bytes, o: nat, depth: int): (r: Parsed<seq<Member<Value>>>)
    ensures r.Ok? ==> o < r.next <= |c|
    decreases |c| - o, 3
  {
    var m := ParseMember(c, o, depth);
    if !m.Ok? then Failed(m)
    else
      var after := SkipBlanks(c, m.next);
      if after >= |c| then Fail
      else if c[after] == COMMA then
        var rest := ParseMembers(c, after + 1, depth);
        if !rest.Ok? then Failed(rest) else Ok([m.value] + rest.value, rest.next)
      else if c[after] == RBRACE then Ok([m.value], after + 1)
      else Fail
  }

  const BOM: bytes := [0xEF, 0xBB, 0xBF]

  /** cJSON_ParseWithLengthOpts on a non-NULL buffer. */
  function ParseDocument(c: bytes, requireNul: bool): (r: Parsed<Value>)
    ensures r.Ok? ==> r.next <= |c|
  {
    var start := if |c| > 4 && At(c, 0, BOM) then 3 else 0;
    var v := ParseValue(c, SkipBlanks(c, start), 0);
    if !v.Ok? || !requireNul then v
    else
      var end := SkipBlanks(c, v.next);
      if end < |c| && c[end] == NUL then Ok(v.value, end) else Fail
  }

  /** cJSON_Parse on the C string `text`. */
  function Parse(text: bytes): Parsed<Value> {
    ParseDocument(text + [NUL], false)
  }
}
