/** The parser as cJSON.c runs it: offset and depth of one buffer are moved step by step. */
module ParseBuffer {
  import opened Bytes
  import opened JsonValue
  import opened JsonParser
  import opened JsonStrings
  import Bits
  import JsonOverread

  class ParseBuffer {
    const content: bytes
    var offset: nat
    /** How deeply nested (in arrays and objects) the input at the current offset is. */
    var depth: nat

    constructor (content: bytes)
      ensures this.content == content && offset == 0 && depth == 0
    {
      this.content := content;
      offset, depth := 0, 0;
    }

    predicate CanAccess()
      reads this
    {
      offset < |content|
    }

    method SkipWhitespace()
      modifies `offset
      ensures offset == SkipBlanks(content, old(offset))
    {
      if !CanAccess() { return; }
      while CanAccess() && content[offset] <= SPACE
        invariant old(offset) <= offset <= |content|
        invariant BlankEnd(content, offset) == BlankEnd(content, old(offset))
        decreases |content| - offset
      {
        offset := offset + 1;
      }
      if offset == |content| {
        offset := offset - 1;
      }
    }

    method SkipBom()
      requires offset == 0
      modifies `offset
      ensures offset == if |content| > 4 && At(content, 0, BOM) then 3 else 0
    {
      if |content| > 4 && content[..3] == BOM {
        offset := 3;
      }
    }

    /** How many bytes are copied for strtod, into a buffer with room for `limit`. */
    method CopyNumber(limit: nat) returns (i: nat)
      ensures i == NumberSpan(content, offset, limit)
    {
      i := 0;
      while i < limit && offset + i < |content| && IsNumberByte(content[offset + i])
        invariant i <= limit
        invariant i + NumberSpan(content, offset + i, limit - i) == NumberSpan(content, offset, limit)
        decreases limit - i
      {
        i := i + 1;
      }
    }

    method ParseNumber() returns (ok: bool, v: Value)
      requires CanAccess()
      modifies `offset
      ensures (if ok then Ok(v, offset) else Fail) == JsonParser.ParseNumber(content, old(offset))
    {
      hide Strtod, NumberSpan;
      v := Null;
      var i := CopyNumber(NUMBER_LIMIT);
      var (used, number) := Strtod(content[offset..offset + i]);
      if used == 0 { return false, v; }
      offset := offset + used;
      return true, Num(number);
    }

    /** The first pass over a string: where it ends, and how many bytes its backslashes save. */
    method FindStringEnd(start: nat) returns (ok: bool, end: nat, skipped: nat)
      ensures (if ok then Ok(skipped, end) else Fail) == StringEnd(content, start)
    {
      end, skipped := start, 0;
      while end < |content| && content[end] != QUOTE
        invariant start <= end
        invariant StringEnd(content, start) ==
          var r := StringEnd(content, end); if !r.Ok? then Fail else Ok(skipped + r.value, r.next)
        decreases |content| - end
      {
        if content[end] == BACKSLASH {
          if end + 1 >= |content| { return false, end, skipped; }
          skipped := skipped + 1;
          end := end + 1;
        }
        end := end + 1;
      }
      ok := end < |content|;
    }

    /** Writes the UTF-8 form of the escape at `p` to `output` at `q`, last byte first. */
    method Utf16LiteralToUtf8(p: nat, end: nat, output: array<byte>, q: nat)
      returns (sequenceLength: nat, next: nat)
      requires p < end < |content| && content[p] == BACKSLASH && content[p + 1] == LOWER_U
      requires Utf16Literal(content, p, end).Ok? ==> q + |Utf16Literal(content, p, end).value| <= output.Length
      modifies output
      ensures sequenceLength == 0 <==> !Utf16Literal(content, p, end).Ok?
      ensures sequenceLength > 0 ==>
        var r := Utf16Literal(content, p, end);
        p + sequenceLength == r.next && next == q + |r.value| && output[q..next] == r.value
      ensures forall k :: 0 <= k < output.Length && (k < q || sequenceLength == 0) ==> output[k] == old(output[k])
    {
      sequenceLength, next := 0, q;
      if end - p < 6 { return; }
      var firstCode := Hex4(content, p + 2);
      if IsLowSurrogate(firstCode) { return; }
      var codepoint := firstCode;
      if IsHighSurrogate(firstCode) {
        if end - (p + 6) < 6 || content[p + 6] != BACKSLASH || content[p + 7] != LOWER_U { return; }
        var secondCode := Hex4(content, p + 8);
        if !IsLowSurrogate(secondCode) { return; }
        codepoint := PairCodePoint(firstCode, secondCode);
        sequenceLength := 12;
      } else {
        sequenceLength := 6;
      }
      next := WriteUtf8(codepoint, output, q);
    }

    static method Utf8Length(codepoint: nat) returns (length: nat, mark: byte)
      requires codepoint <= 0x10FFFF
      ensures length == |Utf8(codepoint)| && mark == LeadMark(length)
    {
      length, mark := 1, 0;
      if codepoint >= 0x1_0000 { length, mark := 4, 0xF0; }
      else if codepoint >= 0x800 { length, mark := 3, 0xE0; }
      else if codepoint >= 0x80 { length, mark := 2, 0xC0; }
    }

    static method WriteUtf8(codepoint: nat, output: array<byte>, q: nat) returns (next: nat)
      requires codepoint <= 0x10FFFF && q + |Utf8(codepoint)| <= output.Length
      modifies output
      ensures next == q + |Utf8(codepoint)| && output[q..next] == Utf8(codepoint)
      ensures forall k :: 0 <= k < q ==> output[k] == old(output[k])
    {
      hide *;
      var length, mark := Utf8Length(codepoint);
      ghost var t := Utf8(codepoint);
      var position, rest := length - 1, codepoint;
      LoopBytes(codepoint, position, mark);
      while position > 0
        invariant 0 <= position < length
        invariant rest == Shifted(codepoint, length - 1 - position)
        invariant forall k {:trigger output[k]} :: q + position < k < q + length ==> output[k] == t[k - q]
        invariant forall k :: 0 <= k < q ==> output[k] == old(output[k])
      {
        LoopBytes(codepoint, position, mark);
        output[q + position] := TailByte(rest);
        rest := Next(rest);
        position := position - 1;
      }
      LoopBytes(codepoint, 0, mark);
      output[q] := FirstByte(rest, length, mark);
      next := q + length;
      Slice(output, q, t);
    }

    /** One turn of the second pass: what stands at `p` is decoded to `output` at `q`. */
    method DecodeStep(p: nat, end: nat, output: array<byte>, q: nat) returns (ok: bool, p': nat, q': nat)
      requires p < end < |content|
      requires DecodeOne(content, p, end).Ok? ==> q + |DecodeOne(content, p, end).value| <= output.Length
      requires q < output.Length
      modifies output
      ensures ok <==> DecodeOne(content, p, end).Ok?
      ensures ok ==>
        var one := DecodeOne(content, p, end);
        p' == one.next && q' == q + |one.value| && output[q..q'] == one.value
      ensures !ok ==> p' == p && q' == q
      ensures forall k :: 0 <= k < q ==> output[k] == old(output[k])
    {
      hide Utf16Literal;
      ok, p', q' := true, p, q;
      if content[p] != BACKSLASH {
        output[q] := content[p];
        p', q' := p + 1, q + 1;
      } else if content[p + 1] == LOWER_U {
        var sequenceLength, next := Utf16LiteralToUtf8(p, end, output, q);
        if sequenceLength == 0 { return false, p, q; }
        p', q' := p + sequenceLength, next;
      } else {
        var letter := UnescapeLetter(content[p + 1]);
        if !letter.Ok? { return false, p, q; }
        output[q] := letter.value;
        p', q' := p + 2, q + 1;
      }
    }

    /** The second pass: it never writes behind `output`, of which the last byte is left for the terminator. */
    method DecodeString(start: nat, end: nat, output: array<byte>) returns (ok: bool, p: nat, q: nat)
      requires end < |content| && 0 < output.Length && HasRoom(content, start, end, output.Length - 1)
      modifies output
      ensures ok <==> Decode(content, start, end).Ok?
      ensures ok ==> q < output.Length && output[..q] == Decode(content, start, end).value
    {
      hide HasRoom, DecodeOne;
      p, q := start, 0;
      ghost var total := Decode(content, start, end);
      PrependNothing(total);
      while p < end
        invariant start <= p && q < output.Length
        invariant HasRoom(content, p, end, output.Length - 1 - q)
        invariant total == Prepend(output[..q], Decode(content, p, end))
        decreases |content| - p
      {
        ghost var one := DecodeOne(content, p, end);
        ghost var before := output[..q];
        if one.Ok? {
          StepHasRoom(content, p, end, output.Length - 1 - q);
          RoomIsNat(content, one.next, end, output.Length - 1 - q - |one.value|);
        }
        ghost var rest := Decode(content, p, end);
        ok, p, q := DecodeStep(p, end, output, q);
        if !ok { return false, p, q; }
        assert rest == Prepend(one.value, Decode(content, p, end));
        assert output[..q] == before + one.value;
        PrependPrepend(before, one.value, Decode(content, p, end));
      }
      assert output[..q] + [] == output[..q];
      ok := true;
    }

    method ParseString() returns (ok: bool, s: bytes)
      requires CanAccess()
      modifies `offset
      ensures (if ok then Ok(s, offset) else Fail) == JsonParser.ParseString(content, old(offset))
    {
      s := [];
      if content[offset] != QUOTE { return false, s; }
      var found, end, skipped := FindStringEnd(offset + 1);
      if !found { return false, s; }
      var allocationLength := end - offset - skipped;
      var output := new byte[allocationLength + 1];
      RoomAt(content, offset + 1, offset + 1, end, allocationLength);
      var p, q;
      ok, p, q := DecodeString(offset + 1, end, output);
      if !ok {
        offset := p;
        return;
      }
      s := UpToNul(output[..q]);
      output[q] := NUL;
      offset := end + 1;
    }

    /** The end of a container: the depth goes back, and the offset behind the closing byte. */
    method CloseContainer()
      requires depth > 0
      modifies this
      ensures depth == old(depth) - 1 && offset == old(offset) + 1
    {
      depth := depth - 1;
      offset := offset + 1;
    }

    method ParseValue() returns (ok: bool, v: Value)
      requires !JsonParser.ParseValue(content, offset, depth).Overread?
      modifies this
      ensures (if ok then Ok(v, offset) else Fail) == JsonParser.ParseValue(content, old(offset), old(depth))
      ensures ok ==> depth == old(depth)
      decreases |content| - offset, 1
    {
      hide JsonParser.ParseArray, JsonParser.ParseObject, JsonParser.ParseString, JsonParser.ParseNumber;
      v := Null;
      if offset + 4 <= |content| && content[offset..offset + 4] == NULL_TEXT {
        offset := offset + 4;
        return true, Null;
      }
      if offset + 5 <= |content| && content[offset..offset + 5] == FALSE_TEXT {
        offset := offset + 5;
        return true, Bool(false);
      }
      if offset + 4 <= |content| && content[offset..offset + 4] == TRUE_TEXT {
        offset := offset + 4;
        return true, Bool(true);
      }
      if !CanAccess() { return false, v; }
      var first := content[offset];
      if first == QUOTE {
        var s;
        ok, s := ParseString();
        return ok, Str(s);
      }
      if first == MINUS || IsDigit(first) {
        ok, v := ParseNumber();
      } else if first == LBRACKET {
        ok, v := ParseArray();
      } else if first == LBRACE {
        ok, v := ParseObject();
      } else {
        ok := false;
      }
    }

    method ParseArray() returns (ok: bool, v: Value)
      requires CanAccess() && content[offset] == LBRACKET
      requires !JsonParser.ParseArray(content, offset, depth).Overread?
      modifies this
      ensures (if ok then Ok(v, offset) else Fail) == JsonParser.ParseArray(content, old(offset), old(depth))
      ensures ok ==> depth == old(depth)
      decreases |content| - offset, 0
    {
      hide JsonParser.ParseItems, SkipBlanks;
      v := Null;
      if depth >= NESTING_LIMIT { return false, v; }
      depth := depth + 1;
      offset := offset + 1;
      SkipWhitespace();
      if CanAccess() && content[offset] == RBRACKET {
        CloseContainer();
        return true, Arr([]);
      }
      if !CanAccess() {
        offset := offset - 1;
        return false, v;
      }
      var items;
      ok, items := ParseItems();
      if ok {
        CloseContainer();
        v := Arr(items);
      }
    }

    /** The loop over the items; it stops on the closing byte. */
    method ParseItems() returns (ok: bool, items: seq<Value>)
      requires CanAccess() && offset > 0
      requires !JsonParser.ParseItems(content, offset, depth).Overread?
      modifies this
      ensures (if ok then Ok(items, offset + 1) else Fail) == JsonParser.ParseItems(content, old(offset), old(depth))
      ensures ok ==> depth == old(depth)
      decreases |content| - offset, 3
    {
      hide JsonParser.ParseValue, SkipBlanks;
      items := [];
      ghost var total := JsonParser.ParseItems(content, offset, depth);
      PrependNothing(total);
      offset := offset - 1;
      var more := true;
      while more
        invariant more ==> old(offset) <= offset + 1 <= |content| && depth == old(depth)
        invariant more ==> total == Prepend(items, JsonParser.ParseItems(content, offset + 1, depth))
        invariant !more ==> CanAccess() && depth == old(depth) && content[offset] != COMMA
        invariant !more ==> total == if content[offset] == RBRACKET then Ok(items, offset + 1) else Fail
        decreases more, |content| - offset
      {
        offset := offset + 1;
        SkipWhitespace();
        var item;
        ok, item := ParseValue();
        if !ok { return; }
        SkipWhitespace();
        if !CanAccess() { return false, items; }
        more := content[offset] == COMMA;
        if more { PrependPrepend(items, [item], JsonParser.ParseItems(content, offset + 1, depth)); }
        items := items + [item];
      }
      ok := content[offset] == RBRACKET;
    }

    /** One name and its value. */
    method ParseMember() returns (ok: bool, m: Member<Value>)
      requires !JsonParser.ParseMember(content, offset, depth).Overread?
      modifies this
      ensures (if ok then Ok(m, offset) else Fail) == JsonParser.ParseMember(content, old(offset), old(depth))
      ensures ok ==> depth == old(depth)
      decreases |content| - offset, 2
    {
      hide JsonParser.ParseValue, JsonParser.ParseString, SkipBlanks;
      m := Member([], Null);
      SkipWhitespace();
      var key;
      ok, key := ParseString();
      if !ok { return false, m; }
      SkipWhitespace();
      if !CanAccess() || content[offset] != COLON { return false, m; }
      offset := offset + 1;
      SkipWhitespace();
      var v;
      ok, v := ParseValue();
      m := Member(key, v);
    }

    method ParseObject() returns (ok: bool, v: Value)
      requires CanAccess() && content[offset] == LBRACE
      requires !JsonParser.ParseObject(content, offset, depth).Overread?
      modifies this
      ensures (if ok then Ok(v, offset) else Fail) == JsonParser.ParseObject(content, old(offset), old(depth))
      ensures ok ==> depth == old(depth)
      decreases |content| - offset, 0
    {
      hide JsonParser.ParseMembers, SkipBlanks;
      v := Null;
      if depth >= NESTING_LIMIT { return false, v; }
      depth := depth + 1;
      offset := offset + 1;
      SkipWhitespace();
      if CanAccess() && content[offset] == RBRACE {
        CloseContainer();
        return true, Obj([]);
      }
      if !CanAccess() {
        offset := offset - 1;
        return false, v;
      }
      var members;
      ok, members := ParseMembers();
      if ok {
        CloseContainer();
        v := Obj(members);
      }
    }

    /** The loop over the members; it stops on the closing byte. */
    method ParseMembers() returns (ok: bool, members: seq<Member<Value>>)
      requires CanAccess() && offset > 0
      requires !JsonParser.ParseMembers(content, offset, depth).Overread?
      modifies this
      ensures (if ok then Ok(members, offset + 1) else Fail) == JsonParser.ParseMembers(content, old(offset), old(depth))
      ensures ok ==> depth == old(depth)
      decreases |content| - offset, 3
    {
      hide JsonParser.ParseMember, SkipBlanks;
      members := [];
      ghost var total := JsonParser.ParseMembers(content, offset, depth);
      PrependNothing(total);
      offset := offset - 1;
      var more := true;
      while more
        invariant more ==> old(offset) <= offset + 1 <= |content| && depth == old(depth)
        invariant more ==> total == Prepend(members, JsonParser.ParseMembers(content, offset + 1, depth))
        invariant !more ==> CanAccess() && depth == old(depth) && content[offset] != COMMA
        invariant !more ==> total == if content[offset] == RBRACE then Ok(members, offset + 1) else Fail
        decreases more, |content| - offset
      {
        offset := offset + 1;
        var m;
        ok, m := ParseMember();
        if !ok { return; }
        SkipWhitespace();
        if !CanAccess() { return false, members; }
        more := content[offset] == COMMA;
        if more { PrependPrepend(members, [m], JsonParser.ParseMembers(content, offset + 1, depth)); }
        members := members + [m];
      }
      ok := content[offset] == RBRACE;
    }
  }

  /** cJSON_ParseWithLengthOpts, on buffers that are not left; JsonOverread tells which. */
  method ParseWithLength(content: bytes, requireNul: bool) returns (r: Parsed<Value>)
    requires !ParseDocument(content, requireNul).Overread?
    ensures r == ParseDocument(content, requireNul)
  {
    if content == [] { return Fail; }
    var buffer := new ParseBuffer(content);
    buffer.SkipBom();
    buffer.SkipWhitespace();
    var ok, v := buffer.ParseValue();
    if !ok { return Fail; }
    if requireNul {
      buffer.SkipWhitespace();
      if !buffer.CanAccess() || content[buffer.offset] != NUL { return Fail; }
    }
    return Ok(v, buffer.offset);
  }

  /** cJSON_Parse: a buffer that ends in a terminator is never left. */
  method ParseText(text: bytes) returns (r: Parsed<Value>)
    ensures r == Parse(text)
  {
    JsonOverread.OverreadExactly(text + [NUL], false);
    r := ParseWithLength(text + [NUL], false);
  }

  function Prepend<T>(a: seq<T>, r: Parsed<seq<T>>): Parsed<seq<T>> {
    if r.Ok? then Ok(a + r.value, r.next) else r
  }

  lemma PrependNothing<T>(r: Parsed<seq<T>>)
    ensures Prepend([], r) == r
  {
    if r.Ok? { assert [] + r.value == r.value; }
  }

  lemma PrependPrepend<T>(a: seq<T>, b: seq<T>, r: Parsed<seq<T>>)
    ensures Prepend(a, Prepend(b, r)) == Prepend(a + b, r)
  {
    if r.Ok? { assert a + (b + r.value) == a + b + r.value; }
  }

  /** A code point after `n` turns of the encoding loop. */
  function Shifted(codepoint: nat, n: nat): nat {
    if n == 0 then codepoint else Shifted(codepoint, n - 1) / 64
  }

  function LeadMark(length: nat): byte {
    if length == 4 then 0xF0 else if length == 3 then 0xE0 else if length == 2 then 0xC0 else 0
  }

  lemma Slice(a: array<byte>, q: nat, t: bytes)
    requires q + |t| <= a.Length && forall k {:trigger a[k]} :: q <= k < q + |t| ==> a[k] == t[k - q]
    ensures a[q..q + |t|] == t
  {
  }

  /** A byte behind the first one: (codepoint | 0x80) & 0xBF. */
  function TailByte(rest: nat): (b: byte)
    ensures b == 0x80 + rest % 64
  {
    Bits.TailByte(rest);
    Bits.And(Bits.Or(rest, 0x80), 0xBF)
  }

  /** The first byte: (codepoint | first_byte_mark) & 0xFF, or codepoint & 0x7F when it is the only one. */
  function FirstByte(rest: nat, length: nat, mark: nat): nat {
    if length > 1 then Bits.And(Bits.Or(rest, mark), 0xFF) else Bits.And(rest, 0x7F)
  }

  /** codepoint >>= 6 */
  function Next(rest: nat): (r: nat)
    ensures r == rest / 64
  {
    Bits.ShiftSix(rest);
    Bits.ShiftRight(rest, 6)
  }

  /** The bits that are left for the first byte lie below its mark. */
  lemma FirstByteIsSum(codepoint: nat, rest: nat, length: nat, mark: byte)
    requires codepoint <= 0x10FFFF && length == |Utf8(codepoint)| && mark == LeadMark(length)
    requires rest == Shifted(codepoint, length - 1)
    ensures FirstByte(rest, length, mark) == mark + rest
  {
    hide Bits.And, Bits.Or, Bits.Power2;
    assert Shifted(codepoint, 1) == codepoint / 64;
    assert Shifted(codepoint, 2) == codepoint / 64 / 64;
    assert Shifted(codepoint, 3) == codepoint / 64 / 64 / 64;
    Bits.PowersOfTwo();
    match length
    case 1 => Bits.MaskKeeps(rest, 7);
    case 2 => Bits.LeadByte(rest, mark, 6, 3);
    case 3 => Bits.LeadByte(rest, mark, 5, 7);
    case 4 => Bits.LeadByte(rest, mark, 4, 15);
    case _ =>
  }

  /** The loop writes the bytes of the encoding from the last one to the first. */
  lemma LoopBytes(codepoint: nat, k: nat, mark: byte)
    requires codepoint <= 0x10FFFF && k < |Utf8(codepoint)| && mark == LeadMark(|Utf8(codepoint)|)
    ensures
      var t := Utf8(codepoint);
      var rest := Shifted(codepoint, |t| - 1 - k);
      && Shifted(codepoint, 0) == codepoint && Shifted(codepoint, |t| - k) == Next(rest)
      && t[k] == if k == 0 then FirstByte(rest, |t|, mark) else TailByte(rest)
  {
    hide FirstByte, Utf8, LeadMark;
    Utf8Shifted(codepoint, k);
    if k == 0 { FirstByteIsSum(codepoint, Shifted(codepoint, |Utf8(codepoint)| - 1), |Utf8(codepoint)|, mark); }
  }

  lemma Utf8Shifted(codepoint: nat, k: nat)
    requires codepoint <= 0x10FFFF && k < |Utf8(codepoint)|
    ensures
      var t := Utf8(codepoint);
      var rest := Shifted(codepoint, |t| - 1 - k);
      t[k] == if k == 0 then LeadMark(|t|) + rest else 0x80 + rest % 64
  {
    assert Shifted(codepoint, 1) == codepoint / 64;
    assert Shifted(codepoint, 2) == codepoint / 64 / 64;
    assert Shifted(codepoint, 3) == codepoint / 64 / 64 / 64;
  }
}
