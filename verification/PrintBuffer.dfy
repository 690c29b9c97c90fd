/** The printer as cJSON.c runs it: text is written into a buffer that grows, or into one that may not. */
module PrintBuffer {
  import opened Bytes
  import opened JsonValue
  import opened JsonText

  // ----- facts about the text -----

  lemma {:induction false} DecimalNulFree(n: nat)
    ensures NulFree(Decimal(n))
  {
    forall i | 0 <= i < |Decimal(n)| ensures Decimal(n)[i] != NUL {
      assert IsDigit(Decimal(n)[i]);
    }
  }

  lemma {:induction false} EscapeNulFree(s: bytes)
    requires NulFree(s)
    ensures NulFree(Escape(s))
  {
    if s != [] { EscapeNulFree(s[1..]); }
  }

  /** No text contains a NUL, so that strlen finds its end. */
  lemma {:induction false} TextNulFree(v: Value, format: bool, depth: nat)
    requires Printable(v)
    ensures NulFree(Text(v, format, depth))
    decreases v, 0
  {
    match v
    case Num(d) => DecimalNulFree(if ValueInt(d) < 0 then -ValueInt(d) else ValueInt(d));
    case Str(s) => EscapeNulFree(s);
    case Arr(items) => ItemsNulFree(items, format, depth + 1);
    case Obj(members) => MembersNulFree(members, format, depth + 1);
    case _ =>
  }

  lemma {:induction false} ItemsNulFree(items: seq<Value>, format: bool, depth: nat)
    requires Printable(Arr(items))
    ensures NulFree(ItemsText(items, format, depth))
    decreases items, 0
  {
    if items != [] {
      TextNulFree(items[0], format, depth);
      ItemsNulFree(items[1..], format, depth);
    }
  }

  lemma {:induction false} MembersNulFree(members: seq<Member<Value>>, format: bool, depth: nat)
    requires Printable(Obj(members)) && depth > 0
    ensures NulFree(MembersText(members, format, depth))
    decreases members, 0
  {
    if members != [] {
      EscapeNulFree(members[0].key);
      TextNulFree(members[0].item, format, depth);
      MembersNulFree(members[1..], format, depth);
    }
  }

  lemma {:induction false} EscapeAppend(s: bytes, b: byte)
    ensures Escape(s + [b]) == Escape(s) + EscapeByte(b)
  {
    if s == [] {
      assert [] + [b] == [b] && Escape([b]) == EscapeByte(b) + [];
    } else {
      assert (s + [b])[1..] == s[1..] + [b];
      EscapeAppend(s[1..], b);
      assert EscapeByte(s[0]) + (Escape(s[1..]) + EscapeByte(b)) == Escape(s) + EscapeByte(b);
    }
  }

  // ----- the buffer -----

  class PrintBuffer {
    var buffer: array<byte>
    var offset: nat
    /** Current nesting depth (for formatted printing). */
    var depth: nat
    const noalloc: bool
    const format: bool

    constructor (buffer: array<byte>, noalloc: bool, format: bool)
      ensures this.buffer == buffer && offset == 0 && depth == 0
      ensures this.noalloc == noalloc && this.format == format
    {
      this.buffer, this.noalloc, this.format := buffer, noalloc, format;
      offset, depth := 0, 0;
    }

    predicate Valid()
      reads this`buffer, this`offset
    {
      buffer.Length <= INT_MAX && (offset == 0 || offset < buffer.Length)
    }

    /** The text written so far. */
    function Written(): bytes
      requires Valid()
      reads this`buffer, this`offset, buffer
    {
      buffer[..offset]
    }

    /** How large the buffer can become. */
    function Capacity(): nat
      reads this`buffer
    {
      if noalloc then buffer.Length else INT_MAX
    }

    /** The buffer is still the one it was, or a larger one; the latter only if it may grow. */
    twostate predicate SameOrGrown()
      reads this
    {
      (buffer == old(buffer) || (!noalloc && fresh(buffer))) && old(Valid()) && Valid()
    }

    /** `t` and a terminator stand behind what had been written; the offset is somewhere in `t`. */
    twostate predicate Printed(t: bytes)
      reads this, buffer
    {
      && SameOrGrown() && depth == old(depth)
      && old(offset) <= offset <= old(offset) + |t| < buffer.Length
      && buffer[..old(offset) + |t|] == old(Written()) + t
      && buffer[old(offset) + |t|] == NUL
    }

    /** The same, with the offset behind `t`. */
    twostate predicate Appended(t: bytes)
      reads this, buffer
    {
      SameOrGrown() && offset == old(offset) + |t| && Written() == old(Written()) + t
    }

    method Ensure(needed: nat) returns (ok: bool)
      requires Valid()
      modifies this`buffer
      ensures ok <==> offset + needed + 1 <= Capacity()
      ensures SameOrGrown() && Written() == old(Written())
      ensures ok ==> offset + needed + 1 <= buffer.Length
    {
      if buffer.Length > 0 && offset >= buffer.Length { return false; }
      if needed > INT_MAX { return false; }
      var wanted := needed + offset + 1;
      if wanted <= buffer.Length { return true; }
      if noalloc { return false; }
      var newSize;
      if wanted > INT_MAX / 2 {
        if wanted > INT_MAX { return false; }
        newSize := INT_MAX;
      } else {
        newSize := wanted * 2;
      }
      var newBuffer := new byte[newSize];
      forall i | 0 <= i < buffer.Length {
        newBuffer[i] := buffer[i];
      }
      buffer := newBuffer;
      return true;
    }

    /** Writes `t` at `at`, as strcpy and memcpy do. */
    method Write(at: nat, t: bytes)
      requires at + |t| <= buffer.Length
      modifies buffer
      ensures buffer[..at + |t|] == old(buffer[..at]) + t
    {
      for i := 0 to |t|
        invariant buffer[..at + i] == old(buffer[..at]) + t[..i]
      {
        buffer[at + i] := t[i];
        assert t[..i + 1] == t[..i] + [t[i]];
      }
      assert t[..|t|] == t;
    }

    /** update_offset: moves to the terminator, which stands at `end`. */
    method UpdateOffset(ghost end: nat)
      requires offset <= end < buffer.Length && buffer[end] == NUL
      requires forall i :: offset <= i < end ==> buffer[i] != NUL
      modifies `offset
      ensures offset == end
    {
      while buffer[offset] != NUL
        invariant old(offset) <= offset <= end
        decreases end - offset
      {
        offset := offset + 1;
      }
    }

    /** Writes `t` and a terminator without moving the offset. */
    method PrintText(t: bytes) returns (ok: bool)
      requires Valid()
      modifies this`buffer, buffer
      ensures ok <==> old(offset) + |t| + 2 <= old(Capacity())
      ensures ok ==> Printed(t)
      ensures SameOrGrown()
    {
      ok := Ensure(|t| + 1);
      if ok {
        Write(offset, t + [NUL]);
        assert buffer[..offset + |t|] == buffer[..offset + |t| + 1][..offset + |t|];
      }
    }

    method PrintNumber(d: real) returns (ok: bool)
      requires Valid() && IsInt(d)
      modifies this`buffer, this`offset, buffer
      ensures ok <==> old(offset) + |IntText(ValueInt(d))| + 2 <= old(Capacity())
      ensures ok ==> Printed(IntText(ValueInt(d)))
      ensures SameOrGrown()
    {
      var t := IntText(ValueInt(d));
      ok := PrintText(t);
      if ok { offset := offset + |t|; }
    }

    static lemma EscapeNothing()
      ensures Escape([]) == []
    {
    }

    /** How many characters escaping adds. */
    static method CountEscapes(s: bytes) returns (escapeCharacters: nat)
      requires NulFree(s)
      ensures |Escape(s)| == |s| + escapeCharacters
      ensures escapeCharacters == 0 ==> Escape(s) == s
    {
      hide Escape;
      EscapeNothing();
      escapeCharacters := 0;
      for i := 0 to |s|
        invariant |Escape(s[..i])| == i + escapeCharacters
        invariant escapeCharacters == 0 ==> Escape(s[..i]) == s[..i]
      {
        EscapeAppend(s[..i], s[i]);
        assert s[..i + 1] == s[..i] + [s[i]];
        if EscapeLetter(s[i]) != 0 {
          escapeCharacters := escapeCharacters + 1;
        } else if s[i] < 32 {
          escapeCharacters := escapeCharacters + 5;
        }
      }
      assert s[..|s|] == s;
    }

    /** Copies `s` to `at` with its special characters escaped; there is room for a terminator behind it. */
    method WriteEscaped(at: nat, s: bytes)
      requires at + |Escape(s)| < buffer.Length
      modifies buffer
      ensures buffer[..at + |Escape(s)|] == old(buffer[..at]) + Escape(s)
    {
      ghost var before := buffer[..at];
      var p := at;
      for i := 0 to |s|
        invariant p == at + |Escape(s[..i])| && |Escape(s[..i])| + |Escape(s[i..])| == |Escape(s)|
        invariant buffer[..p] == before + Escape(s[..i])
      {
        assert s[..i + 1] == s[..i] + [s[i]] && s[i..] == [s[i]] + s[i + 1..];
        EscapeAppend(s[..i], s[i]);
        var t := EscapeByte(s[i]);
        p := WriteEscape(p, t);
        assert before + Escape(s[..i]) + t == before + (Escape(s[..i]) + t);
      }
      assert s[..|s|] == s;
    }

    /** One escape; sprintf adds a terminator to "uXXXX", which the next character overwrites. */
    method WriteEscape(p: nat, t: bytes) returns (next: nat)
      requires p + |t| < buffer.Length
      modifies buffer
      ensures next == p + |t| && buffer[..next] == old(buffer[..p]) + t
    {
      if |t| == 6 {
        buffer[p + 6] := NUL;
        assert buffer[..p] == old(buffer[..p]);
      }
      Write(p, t);
      next := p + |t|;
    }

    /** Writes `s` quoted and terminated. */
    method WriteQuoted(at: nat, s: bytes, escapeCharacters: nat)
      requires |Escape(s)| == |s| + escapeCharacters && (escapeCharacters == 0 ==> Escape(s) == s)
      requires at + |Quoted(s)| < buffer.Length
      modifies buffer
      ensures buffer[..at + |Quoted(s)|] == old(buffer[..at]) + Quoted(s)
      ensures buffer[at + |Quoted(s)|] == NUL
    {
      hide Escape;
      ghost var w, end := buffer[..at], at + |Quoted(s)|;
      Write(at, [QUOTE]);
      if escapeCharacters == 0 {
        Write(at + 1, s);
      } else {
        WriteEscaped(at + 1, s);
      }
      Write(at + 1 + |s| + escapeCharacters, [QUOTE, NUL]);
      ghost var all := buffer[..end + 1];
      assert all == w + [QUOTE] + Escape(s) + [QUOTE, NUL];
      assert all == w + Quoted(s) + [NUL];
      assert buffer[..end] == all[..end] && buffer[end] == all[end];
    }

    /** print_string_ptr. */
    method PrintString(s: bytes) returns (ok: bool)
      requires Valid() && NulFree(s)
      modifies this`buffer, buffer
      ensures ok <==> old(offset) + |Quoted(s)| + 2 <= old(Capacity())
      ensures ok ==> Printed(Quoted(s))
      ensures SameOrGrown()
    {
      hide Escape;
      var escapeCharacters := CountEscapes(s);
      var outputLength := |s| + escapeCharacters;
      ok := Ensure(outputLength + 3);
      if ok { WriteQuoted(offset, s, escapeCharacters); }
    }

    /** Asks for room for `t` and perhaps one byte to spare, writes `t`, and moves behind it. */
    method Append(t: bytes, spare: nat, terminate: bool) returns (ok: bool)
      requires Valid() && spare <= 1 && (terminate ==> spare == 1)
      modifies this`buffer, this`offset, buffer
      ensures ok <==> old(offset) + |t| + spare + 1 <= old(Capacity())
      ensures ok ==> Appended(t)
      ensures SameOrGrown()
    {
      ok := Ensure(|t| + spare);
      if ok {
        Write(offset, t);
        offset := offset + |t|;
        if terminate { buffer[offset] := NUL; }
      }
    }

    /** print_value or print_string_ptr, with the call of update_offset that follows it. */
    method AppendValue(v: Value) returns (ok: bool)
      requires Valid() && Printable(v)
      modifies this, buffer
      ensures ok <==> old(offset) + |Text(v, format, old(depth))| + 2 <= old(Capacity())
      ensures ok ==> Appended(Text(v, format, old(depth))) && depth == old(depth)
      ensures SameOrGrown()
      decreases v, 2
    {
      hide Text;
      ghost var t, w := Text(v, format, depth), Written();
      ok := PrintValue(v);
      if ok {
        TextNulFree(v, format, depth);
        FollowText(w, t);
      }
    }

    method AppendString(s: bytes) returns (ok: bool)
      requires Valid() && NulFree(s)
      modifies this`buffer, this`offset, buffer
      ensures ok <==> old(offset) + |Quoted(s)| + 2 <= old(Capacity())
      ensures ok ==> Appended(Quoted(s))
      ensures SameOrGrown()
    {
      ghost var w := Written();
      ok := PrintString(s);
      if ok {
        EscapeNulFree(s);
        FollowText(w, Quoted(s));
      }
    }

    method FollowText(ghost w: bytes, ghost t: bytes)
      requires |w| <= offset <= |w| + |t| < buffer.Length && NulFree(t)
      requires buffer[..|w| + |t|] == w + t && buffer[|w| + |t|] == NUL
      modifies `offset
      ensures offset == |w| + |t|
    {
      assert forall i :: offset <= i < |w| + |t| ==> buffer[i] == (w + t)[i] == t[i - |w|];
      UpdateOffset(|w| + |t|);
    }

    method PrintValue(v: Value) returns (ok: bool)
      requires Valid() && Printable(v)
      modifies this, buffer
      ensures ok <==> old(offset) + |Text(v, format, old(depth))| + 2 <= old(Capacity())
      ensures ok ==> Printed(Text(v, format, old(depth)))
      ensures SameOrGrown()
      decreases v, 1
    {
      match v
      case Null => ok := PrintText(NULL_TEXT);
      case Bool(b) => ok := PrintText(if b then TRUE_TEXT else FALSE_TEXT);
      case Num(d) => ok := PrintNumber(d);
      case Str(s) => ok := PrintString(s);
      case Arr(items) => ok := PrintArray(items);
      case Obj(members) => ok := PrintObject(members);
    }

    /** What has been written and `rest` make up `all`. */
    predicate Remaining(all: bytes, rest: bytes)
      reads this`buffer, this`offset, buffer
    {
      Valid() && Written() + rest == all
    }

    lemma StartRemaining(t: bytes)
      requires Valid()
      ensures Remaining(Written() + t, t)
    {
    }

    lemma RemainingOffset(all: bytes, rest: bytes)
      requires Remaining(all, rest)
      ensures Valid() && offset + |rest| == |all|
    {
    }

    /** Writes the front of what remains. */
    method AppendPart(t: bytes, spare: nat, terminate: bool, ghost all: bytes, ghost rest: bytes) returns (ok: bool)
      requires Remaining(all, t + rest) && spare <= 1 && (terminate ==> spare == 1) && (spare > 0 ==> rest != [])
      modifies this`buffer, this`offset, buffer
      ensures SameOrGrown()
      ensures ok ==> Remaining(all, rest) && offset >= old(offset)
      ensures !ok ==> |all| + 2 > old(Capacity())
    {
      ghost var w := Written();
      ok := Append(t, spare, terminate);
      if ok { assert w + (t + rest) == Written() + rest; }
    }

    method AppendPartValue(v: Value, ghost all: bytes, ghost rest: bytes) returns (ok: bool)
      requires Printable(v) && Remaining(all, Text(v, format, depth) + rest)
      modifies this, buffer
      ensures SameOrGrown()
      ensures ok ==> Remaining(all, rest) && offset >= old(offset) && depth == old(depth)
      ensures !ok ==> |all| + 2 > old(Capacity())
      decreases v, 3
    {
      hide Text;
      ghost var w := Written();
      ghost var t := Text(v, format, depth);
      ok := AppendValue(v);
      if ok { assert w + (t + rest) == Written() + rest; }
    }

    method AppendPartString(s: bytes, ghost all: bytes, ghost rest: bytes) returns (ok: bool)
      requires NulFree(s) && Remaining(all, Quoted(s) + rest)
      modifies this`buffer, this`offset, buffer
      ensures SameOrGrown()
      ensures ok ==> Remaining(all, rest) && offset >= old(offset)
      ensures !ok ==> |all| + 2 > old(Capacity())
    {
      hide Quoted;
      ghost var w := Written();
      ok := AppendString(s);
      if ok { assert w + (Quoted(s) + rest) == Written() + rest; }
    }

    /** Writes the last part and a terminator, and leaves the offset in front of it. */
    method PrintLast(t: bytes, ghost all: bytes) returns (ok: bool)
      requires Remaining(all, t)
      modifies this`buffer, buffer
      ensures SameOrGrown()
      ensures ok <==> |all| + 2 <= old(Capacity())
      ensures ok ==> offset <= |all| < buffer.Length && buffer[..|all|] == all && buffer[|all|] == NUL
    {
      ok := PrintText(t);
    }

    method AppendItem(items: seq<Value>, ghost all: bytes) returns (ok: bool)
      requires items != [] && Printable(Arr(items)) && Remaining(all, ItemsText(items, format, depth))
      modifies this, buffer
      ensures SameOrGrown()
      ensures ok ==> Remaining(all, ItemsText(items[1..], format, depth)) && depth == old(depth)
      ensures !ok ==> |all| + 2 > old(Capacity())
      decreases items, 0
    {
      hide Text, ItemsTail, ItemsText, Remaining;
      ghost var more := items[1..];
      ItemsTextStep(items, format, depth);
      ItemsTailStep(more, format, depth);
      ok := AppendPartValue(items[0], all, ItemsTail(more, format, depth));
      if ok && |items| > 1 {
        ok := AppendPart(if format then [COMMA, SPACE] else [COMMA], 1, true, all, ItemsText(more, format, depth));
      }
    }

    method PrintArray(items: seq<Value>) returns (ok: bool)
      requires Valid() && Printable(Arr(items))
      modifies this, buffer
      ensures ok <==> old(offset) + |Text(Arr(items), format, old(depth))| + 2 <= old(Capacity())
      ensures ok ==> Printed(Text(Arr(items), format, old(depth)))
      ensures SameOrGrown()
      decreases items, 1
    {
      hide Text, ItemsText, Remaining;
      ghost var all := Written() + Text(Arr(items), format, depth);
      TextOfArray(items, format, depth);
      StartRemaining(Text(Arr(items), format, depth));
      ok := AppendPart([LBRACKET], 0, false, all, ItemsText(items, format, depth + 1));
      if !ok { return; }
      depth := depth + 1;
      assert items[0..] == items;
      var i := 0;
      while i < |items|
        invariant 0 <= i <= |items| && depth == old(depth) + 1
        invariant Capacity() == old(Capacity()) && (buffer == old(buffer) || (!noalloc && fresh(buffer)))
        invariant Remaining(all, ItemsText(items[i..], format, depth))
      {
        assert items[i..][1..] == items[i + 1..];
        ok := AppendItem(items[i..], all);
        if !ok { return; }
        i := i + 1;
      }
      RemainingOffset(all, ItemsText(items[i..], format, depth));
      assert items[i..] == [];
      ItemsTextEnd(format, depth);
      ok := PrintLast([RBRACKET], all);
      depth := depth - 1;
    }

    /** Writes one member; the blanks in front of its name have no terminator. */
    method AppendMember(members: seq<Member<Value>>, ghost all: bytes) returns (ok: bool)
      requires members != [] && Printable(Obj(members)) && depth > 0
      requires Remaining(all, MembersText(members, format, depth))
      modifies this, buffer
      ensures SameOrGrown()
      ensures ok ==> offset >= old(offset) && depth == old(depth) && Remaining(all, MembersText(members[1..], format, depth))
      ensures !ok ==> |all| + 2 > old(Capacity())
      decreases members, 0
    {
      hide Text, MembersTail, MembersText, Quoted, Colon, Indent, Remaining;
      ghost var more := members[1..];
      ghost var tail := MembersTail(more, format, depth);
      ghost var value := Text(members[0].item, format, depth) + tail;
      MembersTextStep(members, format, depth);
      MembersTailStep(more, format, depth);
      if format {
        ok := AppendPart(Tabs(depth), 0, false, all, Quoted(members[0].key) + (Colon(format) + value));
        if !ok { return; }
      }
      ok := AppendPartString(members[0].key, all, Colon(format) + value);
      if !ok { return; }
      ok := AppendPart(if format then [COLON, TAB] else [COLON], 0, false, all, value);
      if !ok { return; }
      ok := AppendPartValue(members[0].item, all, tail);
      if !ok { return; }
      ok := AppendPart((if |members| > 1 then [COMMA] else []) + (if format then [LINE_FEED] else []), 1, true,
        all, MembersText(more, format, depth));
    }

    method PrintObject(members: seq<Member<Value>>) returns (ok: bool)
      requires Valid() && Printable(Obj(members))
      modifies this, buffer
      ensures ok <==> old(offset) + |Text(Obj(members), format, old(depth))| + 2 <= old(Capacity())
      ensures ok ==> Printed(Text(Obj(members), format, old(depth)))
      ensures SameOrGrown()
      decreases members, 1
    {
      hide Text, MembersText, Remaining;
      ghost var all := Written() + Text(Obj(members), format, depth);
      TextOfObject(members, format, depth);
      StartRemaining(Text(Obj(members), format, depth));
      ok := AppendPart([LBRACE] + (if format then [LINE_FEED] else []), 1, false, all,
        MembersText(members, format, depth + 1));
      if !ok { return; }
      depth := depth + 1;
      assert members[0..] == members;
      var i := 0;
      while i < |members|
        invariant 0 <= i <= |members| && depth == old(depth) + 1
        invariant Capacity() == old(Capacity()) && (buffer == old(buffer) || (!noalloc && fresh(buffer)))
        invariant offset >= old(offset) && Remaining(all, MembersText(members[i..], format, depth))
      {
        assert members[i..][1..] == members[i + 1..];
        ok := AppendMember(members[i..], all);
        if !ok { return; }
        i := i + 1;
      }
      RemainingOffset(all, MembersText(members[i..], format, depth));
      assert members[i..] == [];
      MembersTextEnd(format, depth);
      ok := PrintLast((if format then Tabs(depth - 1) else []) + [RBRACE], all);
      depth := depth - 1;
    }
  }

  lemma TextOfArray(items: seq<Value>, format: bool, depth: nat)
    requires Printable(Arr(items))
    ensures Text(Arr(items), format, depth) == [LBRACKET] + ItemsText(items, format, depth + 1)
  {
  }

  lemma ItemsTextStep(items: seq<Value>, format: bool, depth: nat)
    requires Printable(Arr(items)) && items != []
    ensures ItemsText(items, format, depth) == Text(items[0], format, depth) + ItemsTail(items[1..], format, depth)
    ensures |ItemsTail(items[1..], format, depth)| > 0
  {
  }

  lemma ItemsTailStep(items: seq<Value>, format: bool, depth: nat)
    requires Printable(Arr(items))
    ensures ItemsTail(items, format, depth)
      == if items == [] then ItemsText([], format, depth) else Separator(format) + ItemsText(items, format, depth)
    ensures |ItemsText(items, format, depth)| > 0
  {
  }

  lemma ItemsTextEnd(format: bool, depth: nat)
    ensures ItemsText([], format, depth) == [RBRACKET]
  {
  }

  lemma TextOfObject(members: seq<Member<Value>>, format: bool, depth: nat)
    requires Printable(Obj(members))
    ensures Text(Obj(members), format, depth)
      == [LBRACE] + (if format then [LINE_FEED] else []) + MembersText(members, format, depth + 1)
    ensures MembersText(members, format, depth + 1) != []
  {
    hide MembersText, ItemsText, Quoted;
    MembersTextNonEmpty(members, format, depth + 1);
  }

  lemma MembersTextNonEmpty(members: seq<Member<Value>>, format: bool, depth: nat)
    requires Printable(Obj(members)) && depth > 0
    ensures MembersText(members, format, depth) != []
  {
    if members != [] { assert |Quoted(members[0].key)| > 0; }
  }

  lemma MembersTextStep(members: seq<Member<Value>>, format: bool, depth: nat)
    requires Printable(Obj(members)) && members != [] && depth > 0
    ensures
      var rest := Quoted(members[0].key)
        + (Colon(format) + (Text(members[0].item, format, depth) + MembersTail(members[1..], format, depth)));
      MembersText(members, format, depth) == if format then Tabs(depth) + rest else rest
    ensures Colon(format) == if format then [COLON, TAB] else [COLON]
  {
  }

  lemma MembersTailStep(members: seq<Member<Value>>, format: bool, depth: nat)
    requires Printable(Obj(members)) && depth > 0
    ensures MembersTail(members, format, depth)
      == (if members == [] then [] else [COMMA]) + (if format then [LINE_FEED] else []) + MembersText(members, format, depth)
    ensures MembersText(members, format, depth) != []
  {
    hide MembersText;
    MembersTextNonEmpty(members, format, depth);
  }

  lemma MembersTextEnd(format: bool, depth: nat)
    requires depth > 0
    ensures MembersText([], format, depth) == (if format then Tabs(depth - 1) else []) + [RBRACE]
  {
  }

  // ----- the ways to print -----

  /** cJSON_PrintPreallocated: it succeeds exactly when there are two bytes more than the text has, one of them for
      the terminator; with the five more that the documentation asks for it always succeeds. */
  method PrintPreallocated(v: Value, buffer: array<byte>, format: bool) returns (ok: bool)
    requires Printable(v) && buffer.Length <= INT_MAX
    modifies buffer
    ensures ok <==> |Text(v, format, 0)| + 2 <= buffer.Length
    ensures ok ==> UpToNul(buffer[..]) == Text(v, format, 0)
  {
    var p := new PrintBuffer(buffer, true, format);
    ok := p.PrintValue(v);
    if ok {
      TextNulFree(v, format, 0);
      UpToNulAt(buffer[..], Text(v, format, 0));
    }
  }

  lemma {:induction false} UpToNulAt(s: bytes, t: bytes)
    requires NulFree(t) && |t| < |s| && s[..|t|] == t && s[|t|] == NUL
    ensures UpToNul(s) == t
    decreases |t|
  {
    if t != [] {
      assert s[1..][..|t| - 1] == t[1..] && s[1..][|t| - 1] == NUL;
      assert s[0] == s[..|t|][0];
      UpToNulAt(s[1..], t[1..]);
      assert t == [t[0]] + t[1..];
    }
  }

  /** cJSON_PrintBuffered with a guess of the size; memory is not exhausted. */
  method PrintBuffered(v: Value, prebuffer: int, format: bool) returns (ok: bool, text: bytes)
    requires Printable(v) && prebuffer <= INT_MAX
    ensures ok <==> 0 <= prebuffer && |Text(v, format, 0)| + 2 <= INT_MAX
    ensures ok ==> text == Text(v, format, 0)
  {
    text := [];
    if prebuffer < 0 { return false, text; }
    var buffer := new byte[prebuffer];
    var p := new PrintBuffer(buffer, false, format);
    ok := p.PrintValue(v);
    if ok {
      text := UpToNul(p.buffer[..]);
      TextNulFree(v, format, 0);
      UpToNulAt(p.buffer[..], Text(v, format, 0));
    }
  }

  /** print, as called by cJSON_Print and cJSON_PrintUnformatted. */
  method Print(v: Value, format: bool) returns (ok: bool, text: bytes)
    requires Printable(v)
    ensures ok <==> |Text(v, format, 0)| + 2 <= INT_MAX
    ensures ok ==> text == Text(v, format, 0)
  {
    text := [];
    var buffer := new byte[256];
    var p := new PrintBuffer(buffer, false, format);
    ok := p.AppendValue(v);
    if ok { text := p.buffer[..p.offset]; }
  }
}
