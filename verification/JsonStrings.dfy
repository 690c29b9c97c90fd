/** String decoding: the size bound that parse_string relies on, and the UTF-8 it produces. */
module JsonStrings {
  import opened Bytes
  import opened JsonParser
  import JsonText

  // ----- the bound -----

  /** What the first pass counts for the content from `i` on: its length less the backslashes it steps over. */
  function Counted(c: bytes, i: nat): (n: nat)
    requires StringEnd(c, i).Ok?
  {
    StringEnd(c, i).next - i - StringEnd(c, i).value
  }

  /** The first pass stops at `i`, and `p` is `i` or the byte behind a backslash at `i`. */
  predicate Covers(c: bytes, i: nat, p: nat, end: nat) {
    && StringEnd(c, i).Ok? && StringEnd(c, i).next == end
    && (p == i || (p == i + 1 && i < end && c[i] == BACKSLASH))
  }

  /** The first pass moves by at most two bytes for each byte it counts. */
  lemma {:induction false} Advance(c: bytes, i: nat, q: nat) returns (j: nat)
    requires StringEnd(c, i).Ok? && i <= q <= StringEnd(c, i).next
    ensures i <= j && Covers(c, j, q, StringEnd(c, i).next)
    ensures Counted(c, j) <= Counted(c, i) && j - i <= 2 * (Counted(c, i) - Counted(c, j))
    decreases q - i
  {
    if q == i || (q == i + 1 && c[i] == BACKSLASH) {
      j := i;
    } else {
      j := Advance(c, if c[i] == BACKSLASH then i + 2 else i + 1, q);
    }
  }

  /** At `p`, the second pass has room for `n` more bytes. */
  ghost predicate HasRoom(c: bytes, p: nat, end: nat, n: int) {
    0 <= n && (p <= end ==> exists i :: Covers(c, i, p, end) && Counted(c, i) <= n)
  }

  lemma RoomAt(c: bytes, i: nat, p: nat, end: nat, n: int)
    requires Covers(c, i, p, end) && Counted(c, i) <= n
    ensures HasRoom(c, p, end, n)
  {
  }

  lemma RoomIsNat(c: bytes, p: nat, end: nat, n: int)
    requires HasRoom(c, p, end, n)
    ensures 0 <= n
  {
  }

  lemma StepSize(c: bytes, p: nat, end: nat)
    requires p < end < |c| && DecodeOne(c, p, end).Ok?
    ensures
      var one := DecodeOne(c, p, end);
      || (one.next == p + 1 && |one.value| == 1 && c[p] != BACKSLASH)
      || (one.next == p + 2 && |one.value| == 1 && c[p] == BACKSLASH)
      || (one.next == p + 6 <= end && |one.value| <= 3)
      || (one.next == p + 12 <= end && |one.value| == 4)
  {
  }

  /** However an escape is formed, what the second pass writes for it fits into the room there is. */
  lemma StepHasRoom(c: bytes, p: nat, end: nat, n: int)
    requires p < end < |c| && HasRoom(c, p, end, n) && DecodeOne(c, p, end).Ok?
    ensures HasRoom(c, DecodeOne(c, p, end).next, end, n - |DecodeOne(c, p, end).value|)
  {
    hide DecodeOne;
    StepSize(c, p, end);
    var i: nat :| Covers(c, i, p, end) && Counted(c, i) <= n;
    var one := DecodeOne(c, p, end);
    if one.next <= end {
      var j := Advance(c, i, one.next);
      if one.next - p <= 2 && i < p {
        j := Advance(c, i + 2, one.next);
      }
      RoomAt(c, j, one.next, end, n - |one.value|);
    }
  }

  /** So no string needs more room than the first pass counted. */
  lemma {:induction false} DecodeBound(c: bytes, p: nat, end: nat, n: int)
    requires end < |c| && HasRoom(c, p, end, n)
    ensures Decode(c, p, end).Ok? ==> |Decode(c, p, end).value| <= n
    decreases |c| - p
  {
    if p < end && DecodeOne(c, p, end).Ok? {
      var one := DecodeOne(c, p, end);
      StepHasRoom(c, p, end, n);
      DecodeBound(c, one.next, end, n - |one.value|);
    }
  }

  /** parse_string on a quoted string: the output is at most what was counted. */
  lemma ParsedLength(c: bytes, o: nat)
    requires ParseString(c, o).Ok?
    ensures |ParseString(c, o).value| <= Counted(c, o + 1)
  {
    var end := StringEnd(c, o + 1).next;
    RoomAt(c, o + 1, o + 1, end, Counted(c, o + 1));
    DecodeBound(c, o + 1, end, Counted(c, o + 1));
  }

  // ----- UTF-8 -----

  predicate IsScalar(u: nat) {
    u <= 0x10FFFF && !IsHighSurrogate(u) && !IsLowSurrogate(u)
  }

  /** The bits of a byte that carries `mark`, of which there are fewer than `limit`. */
  predicate Carries(b: byte, mark: int, limit: int) { mark <= b < mark + limit }

  function Bits(b: byte, mark: int): int { b as int - mark }

  /** A value with six more bits appended to it. */
  function Append(v: int, b: byte): int { 64 * v + Bits(b, 0x80) }

  predicate IsTail(b: byte) { Carries(b, 0x80, 64) }

  /** Section 3 of RFC 3629: `t` has the bit pattern of its length, with the bits of `u`, and is the shortest. */
  predicate EncodesUtf8(t: bytes, u: int) {
    match |t|
    case 1 => t[0] < 0x80 && u == t[0]
    case 2 => Carries(t[0], 0xC0, 32) && IsTail(t[1]) && u == Append(Bits(t[0], 0xC0), t[1]) && 0x80 <= u
    case 3 =>
      Carries(t[0], 0xE0, 16) && IsTail(t[1]) && IsTail(t[2])
      && u == Append(Append(Bits(t[0], 0xE0), t[1]), t[2]) && 0x800 <= u
    case 4 =>
      Carries(t[0], 0xF0, 8) && IsTail(t[1]) && IsTail(t[2]) && IsTail(t[3])
      && u == Append(Append(Append(Bits(t[0], 0xF0), t[1]), t[2]), t[3]) && 0x1_0000 <= u
    case _ => false
  }

  /** Appending six bits is undone by division and remainder. */
  lemma AppendSplit(u: int, v: int, b: byte)
    requires IsTail(b)
    ensures u == Append(v, b) <==> v == u / 64 && b == 0x80 + u % 64
  {
  }

  lemma Utf8Unique(t: bytes, u: nat)
    requires u <= 0x10FFFF && EncodesUtf8(t, u)
    ensures t == Utf8(u)
  {
    hide Append;
    match |t|
    case 1 =>
    case 2 =>
      AppendSplit(u, Bits(t[0], 0xC0), t[1]);
    case 3 =>
      var v := Append(Bits(t[0], 0xE0), t[1]);
      AppendSplit(v, Bits(t[0], 0xE0), t[1]);
      AppendSplit(u, v, t[2]);
    case 4 =>
      var w := Append(Bits(t[0], 0xF0), t[1]);
      var v := Append(w, t[2]);
      AppendSplit(w, Bits(t[0], 0xF0), t[1]);
      AppendSplit(v, w, t[2]);
      AppendSplit(u, v, t[3]);
  }

  lemma Utf8Encodes(u: nat)
    requires u <= 0x10FFFF
    ensures EncodesUtf8(Utf8(u), u)
  {
    var t := Utf8(u);
    if |t| == 1 {
    } else if |t| == 2 {
      AppendSplit(u, u / 64, t[1]);
    } else if |t| == 3 {
      AppendSplit(u / 64, u / 64 / 64, t[1]);
      AppendSplit(u, u / 64, t[2]);
    } else {
      AppendSplit(u / 64 / 64, u / 64 / 64 / 64, t[1]);
      AppendSplit(u / 64, u / 64 / 64, t[2]);
      AppendSplit(u, u / 64, t[3]);
    }
  }

  /** The bytes written for a code point are its UTF-8 encoding, and its only one. */
  lemma Utf8Correct(t: bytes, u: nat)
    requires u <= 0x10FFFF
    ensures EncodesUtf8(t, u) <==> t == Utf8(u)
  {
    Utf8Encodes(u);
    if EncodesUtf8(t, u) { Utf8Unique(t, u); }
  }

  /** Section 2.1 of RFC 2781. */
  function HighOf(u: nat): nat
    requires 0x1_0000 <= u
  {
    0xD800 + (u - 0x1_0000) / 0x400
  }

  function LowOf(u: nat): nat
    requires 0x1_0000 <= u
  {
    0xDC00 + (u - 0x1_0000) % 0x400
  }

  /** Joining surrogates inverts splitting a code point, both ways. */
  lemma SurrogatesCorrect(u: nat, high: nat, low: nat)
    requires 0x1_0000 <= u <= 0x10FFFF
    requires IsHighSurrogate(high) && IsLowSurrogate(low)
    ensures IsHighSurrogate(HighOf(u)) && IsLowSurrogate(LowOf(u))
    ensures PairCodePoint(high, low) == u <==> high == HighOf(u) && low == LowOf(u)
  {
    SplitUnique(u - 0x1_0000, high - 0xD800, low - 0xDC00);
    assert high % 0x400 == high - 0xD800 && low % 0x400 == low - 0xDC00;
  }

  lemma SplitUnique(n: nat, q: nat, r: nat)
    requires r < 0x400
    ensures q * 0x400 + r == n <==> q == n / 0x400 && r == n % 0x400
  {
  }

  /** `\uXXXX` with four hexadecimal digits of value `u` stands at `p`. */
  predicate UnitAt(c: bytes, p: nat, end: nat, u: nat) {
    && p + 6 <= end <= |c| && c[p] == BACKSLASH && c[p + 1] == LOWER_U
    && (forall i :: p + 2 <= i < p + 6 ==> HexValue(c[i]).Ok?)
    && u == HexValue(c[p + 2]).value * 0x1000 + HexValue(c[p + 3]).value * 0x100
            + HexValue(c[p + 4]).value * 0x10 + HexValue(c[p + 5]).value
  }

  /** Section 7 of RFC 8259: the escape of `length` bytes at `p` denotes the code point `u`. */
  predicate Denotes(c: bytes, p: nat, end: nat, u: nat, length: nat) {
    || (length == 6 && UnitAt(c, p, end, u) && IsScalar(u))
    || (length == 12 && 0x1_0000 <= u <= 0x10FFFF
        && UnitAt(c, p, end, HighOf(u)) && UnitAt(c, p + 6, end, LowOf(u)))
  }

  /** A well-formed escape becomes the UTF-8 encoding of the code point it denotes. */
  lemma EscapeDecodes(c: bytes, p: nat, end: nat, u: nat, length: nat)
    requires p < end < |c| && Denotes(c, p, end, u, length)
    ensures DecodeOne(c, p, end).Ok? && DecodeOne(c, p, end).next == p + length
    ensures EncodesUtf8(DecodeOne(c, p, end).value, u)
  {
    var first := if length == 6 then u else HighOf(u);
    assert Hex4(c, p + 2) == first;
    if length == 12 {
      SurrogatesCorrect(u, HighOf(u), LowOf(u));
      assert Hex4(c, p + 8) == LowOf(u);
    }
    Utf8Correct(Utf8(u), u);
  }

  predicate HexDigitsAt(c: bytes, i: nat) {
    i + 4 <= |c| && forall k :: i <= k < i + 4 ==> HexValue(c[k]).Ok?
  }

  lemma Hex4Digits(c: bytes, i: nat)
    requires i + 4 <= |c| && Hex4(c, i) != 0
    ensures HexDigitsAt(c, i)
  {
  }

  lemma UnitAtHex4(c: bytes, p: nat, end: nat)
    requires p + 6 <= end <= |c| && c[p] == BACKSLASH && c[p + 1] == LOWER_U && HexDigitsAt(c, p + 2)
    ensures UnitAt(c, p, end, Hex4(c, p + 2))
  {
  }

  /** With hexadecimal digits, only an escape that denotes a code point is read. */
  lemma OnlyDenotingDecodes(c: bytes, p: nat, end: nat) returns (u: nat)
    requires p < end < |c| && c[p] == BACKSLASH && c[p + 1] == LOWER_U
    requires HexDigitsAt(c, p + 2)
    ensures DecodeOne(c, p, end).Ok? ==> Denotes(c, p, end, u, DecodeOne(c, p, end).next - p)
  {
    hide Utf8, Hex4, UnitAt, HexDigitsAt, PairCodePoint, HighOf, LowOf;
    u := 0;
    if DecodeOne(c, p, end).Ok? {
      u := Hex4(c, p + 2);
      UnitAtHex4(c, p, end);
      if IsHighSurrogate(u) {
        var first, second := u, Hex4(c, p + 8);
        u := PairCodePoint(first, second);
        SurrogatesCorrect(u, first, second);
        Hex4Digits(c, p + 8);
        UnitAtHex4(c, p + 6, end);
      }
    }
  }

  /** Section 7 of RFC 8259: the byte behind the backslash of a two character escape, and the character it stands for. */
  const ESCAPES: map<byte, byte> := map[34 := 34, 92 := 92, 47 := 47, 98 := 8, 102 := 12, 110 := 10, 114 := 13, 116 := 9]

  /** Exactly these escapes are read, and each as its character. */
  lemma EscapesDecode(c: bytes, p: nat, end: nat)
    requires p < end < |c| && c[p] == 92 && c[p + 1] != 117
    ensures DecodeOne(c, p, end) == if c[p + 1] in ESCAPES then Ok([ESCAPES[c[p + 1]]], p + 2) else Fail
  {
  }

  /** The characters "0" to "9" and "a" to "f". */
  const LOWER_DIGITS: bytes := [48, 49, 50, 51, 52, 53, 54, 55, 56, 57, 97, 98, 99, 100, 101, 102]

  /**
   * What is printed for a byte of a string: the byte itself, unless section 7 of RFC 8259 asks for an escape; then that of
   * two characters, if there is one, and otherwise \u00 with two digits, of which letters are in lower case.
   */
  lemma EscapesPrint(b: byte)
    ensures
      var t := JsonText.EscapeByte(b);
      if b >= 32 && b != 34 && b != 92 then t == [b]
      else if b in ESCAPES.Values then |t| == 2 && t[0] == 92 && t[1] in ESCAPES && ESCAPES[t[1]] == b
      else t == [92, 117, 48, 48, LOWER_DIGITS[b / 16], LOWER_DIGITS[b % 16]]
  {
    if b in ESCAPES.Values {
      var x :| x in ESCAPES && ESCAPES[x] == b;
    }
    assert forall x :: x in ESCAPES ==> ESCAPES[x] in ESCAPES.Values;
    assert ESCAPES[34] == 34 && ESCAPES[92] == 92 && ESCAPES[98] == 8 && ESCAPES[102] == 12;
    assert ESCAPES[110] == 10 && ESCAPES[114] == 13 && ESCAPES[116] == 9;
  }

  /** parse_hex4 takes malformed digits for zero, so that an escape with malformed digits writes a NUL. */
  lemma MalformedDigitsAreNul(c: bytes, p: nat, end: nat)
    requires p + 6 <= end < |c| && c[p] == BACKSLASH && c[p + 1] == LOWER_U
    requires !HexDigitsAt(c, p + 2)
    ensures DecodeOne(c, p, end) == Ok([NUL], p + 6)
  {
  }
}
