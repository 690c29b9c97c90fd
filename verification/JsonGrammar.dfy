/**
 * The texts that the parser takes, as a grammar: what is read for a tree, wherever it stands, and that the parser takes
 * exactly these texts. It is wider than RFC 8259 where the leaves are: any byte up to the space is a blank, numbers are
 * what strtod reads, control characters may stand in strings, and malformed digits of an escape count as zeros.
 */
module JsonGrammar {
  import opened Bytes
  import opened JsonValue
  import opened JsonParser
  import opened JsonStrings
  import opened JsonRoundTrip

  // ----- numbers -----

  /** A number: its sign, the digits before and behind the dot, and the exponent, if it has one. */
  datatype Numeral = Numeral(sign: bytes, whole: bytes, dot: bool, fraction: bytes, exponent: Exponent)
  datatype Exponent = NoExponent | Exponent(letter: byte, sign: bytes, digits: bytes)

  predicate AreDigits(s: bytes) { forall i :: 0 <= i < |s| ==> IsDigit(s[i]) }

  predicate IsSign(s: bytes) { s == [] || s == [PLUS] || s == [MINUS] }

  predicate IsNumeral(n: Numeral) {
    && IsSign(n.sign) && AreDigits(n.whole) && AreDigits(n.fraction) && n.whole + n.fraction != []
    && (!n.dot ==> n.fraction == [])
    && (n.exponent.Exponent? ==>
          && (n.exponent.letter == LOWER_E || n.exponent.letter == UPPER_E)
          && IsSign(n.exponent.sign) && AreDigits(n.exponent.digits) && n.exponent.digits != [])
  }

  function ExponentText(e: Exponent): bytes {
    if e.NoExponent? then [] else [e.letter] + (e.sign + e.digits)
  }

  /** The dot, and what stands behind it. */
  function DotText(n: Numeral): bytes { if n.dot then [DOT] + n.fraction else [] }

  function NumeralText(n: Numeral): bytes {
    n.sign + (n.whole + (DotText(n) + ExponentText(n.exponent)))
  }

  function ExponentValue(e: Exponent): int
    requires e.Exponent? ==> AreDigits(e.digits)
  {
    if e.NoExponent? then 0
    else
      var n: int := DigitsValue(e.digits);
      if e.sign == [MINUS] then -n else n
  }

  /** All digits as one number, shifted by the digits behind the dot and then by the exponent. */
  function NumeralValue(n: Numeral): real
    requires IsNumeral(n)
  {
    var digits := n.whole + n.fraction;
    assert AreDigits(digits);
    var m := Scale(DigitsValue(digits) as real, -|n.fraction|);
    var signed := if n.sign == [MINUS] then -m else m;
    if n.exponent.NoExponent? then signed else Scale(signed, ExponentValue(n.exponent))
  }

  /** The text is that of a number with this value. */
  ghost predicate IsNumber(t: bytes, d: real) {
    exists n :: IsNumeral(n) && NumeralText(n) == t && NumeralValue(n) == d
  }

  lemma {:induction false} DigitsEndAt(s: bytes, i: nat, e: nat)
    requires i <= e <= |s| && (e == |s| || !IsDigit(s[e])) && forall k :: i <= k < e ==> IsDigit(s[k])
    ensures DigitsEnd(s, i) == e
    decreases e - i
  {
    if i < e { DigitsEndAt(s, i + 1, e); }
  }

  lemma SlicesDigits(s: bytes, i: nat)
    requires i <= |s|
    ensures AreDigits(s[i..DigitsEnd(s, i)])
  {
  }

  lemma SignSlice(s: bytes, i: nat)
    requires i <= |s|
    ensures IsSign(s[i..i + SignLength(s, i)])
    ensures s[i..i + SignLength(s, i)] == [MINUS] <==> i < |s| && s[i] == MINUS
  {
  }

  /** What strtod reads of the exponent, from the letter on. */
  function ExponentAt(s: bytes, end: nat): Exponent
    requires end <= |s|
  {
    if end < |s| && (s[end] == LOWER_E || s[end] == UPPER_E) then
      var start := end + 1 + SignLength(s, end + 1);
      var stop := DigitsEnd(s, start);
      if start == stop then NoExponent else Exponent(s[end], s[end + 1..start], s[start..stop])
    else NoExponent
  }

  lemma ExponentIs(s: bytes, end: nat)
    requires end <= |s|
    ensures
      var x := ExponentAt(s, end);
      x.Exponent? ==>
        && (x.letter == LOWER_E || x.letter == UPPER_E) && IsSign(x.sign) && AreDigits(x.digits) && x.digits != []
        && end + |ExponentText(x)| <= |s| && ExponentText(x) == s[end..end + |ExponentText(x)|]
        && (x.sign == [MINUS] <==> s[end + 1] == MINUS)
  {
    if end < |s| && (s[end] == LOWER_E || s[end] == UPPER_E) {
      var start := end + 1 + SignLength(s, end + 1);
      var stop := DigitsEnd(s, start);
      SignSlice(s, end + 1);
      SlicesDigits(s, start);
      assert s[end..stop] == [s[end]] + (s[end + 1..start] + s[start..stop]);
    }
  }

  /** The number that strtod reads. */
  function NumeralAt(s: bytes): Numeral {
    var start := SignLength(s, 0);
    var whole := DigitsEnd(s, start);
    var dot := whole < |s| && s[whole] == DOT;
    var end := if dot then DigitsEnd(s, whole + 1) else whole;
    Numeral(s[..start], s[start..whole], dot, if dot then s[whole + 1..end] else [], ExponentAt(s, end))
  }

  /** Where the digits behind the dot end. */
  function FractionEnd(s: bytes): (e: nat)
    ensures e <= |s|
  {
    var whole := DigitsEnd(s, SignLength(s, 0));
    if whole < |s| && s[whole] == DOT then DigitsEnd(s, whole + 1) else whole
  }

  lemma MantissaAt(s: bytes)
    ensures
      var n := NumeralAt(s);
      && IsSign(n.sign) && AreDigits(n.whole) && AreDigits(n.fraction) && (!n.dot ==> n.fraction == [])
      && s[..FractionEnd(s)] == n.sign + (n.whole + DotText(n))
      && (n.sign == [MINUS] <==> s != [] && s[0] == MINUS)
  {
    var start := SignLength(s, 0);
    var whole := DigitsEnd(s, start);
    SignSlice(s, 0);
    assert s[0..start] == s[..start];
    SlicesDigits(s, start);
    var end := FractionEnd(s);
    if whole < |s| && s[whole] == DOT {
      SlicesDigits(s, whole + 1);
      assert s[whole..end] == [DOT] + s[whole + 1..end];
    }
    hide DigitsEnd, SignLength;
    JoinThree(s, start, whole, end);
  }

  lemma JoinThree(s: bytes, i: nat, j: nat, k: nat)
    requires i <= j <= k <= |s|
    ensures s[..k] == s[..i] + (s[i..j] + s[j..k])
  {
  }

  lemma NumeralSlice(s: bytes)
    ensures
      var n := NumeralAt(s);
      var used := FractionEnd(s) + |ExponentText(n.exponent)|;
      used <= |s| && NumeralText(n) == s[..used]
  {
    var n, end := NumeralAt(s), FractionEnd(s);
    MantissaAt(s);
    ExponentIs(s, end);
    assert n.exponent == ExponentAt(s, end);
    var x := ExponentText(n.exponent);
    hide DigitsEnd, SignLength, ExponentAt, NumeralAt, FractionEnd, ExponentText, AreDigits, IsSign;
    JoinFour(n.sign, n.whole, DotText(n), x);
    JoinSlices(s, end, end + |x|);
  }

  lemma JoinFour(a: bytes, b: bytes, c: bytes, d: bytes)
    ensures a + (b + (c + d)) == a + (b + c) + d
  {
  }

  lemma JoinSlices(s: bytes, i: nat, j: nat)
    requires i <= j <= |s|
    ensures s[..j] == s[..i] + s[i..j]
  {
  }

  /** strtod reads a number, and gets its value. */
  lemma StrtodReads(s: bytes)
    requires Strtod(s).0 > 0
    ensures
      var n := NumeralAt(s);
      IsNumeral(n) && NumeralText(n) == s[..Strtod(s).0] && NumeralValue(n) == Strtod(s).1
  {
    var n := NumeralAt(s);
    MantissaAt(s);
    NumeralSlice(s);
    ExponentIs(s, FractionEnd(s));
    assert n.exponent == ExponentAt(s, FractionEnd(s));
    StrtodUnfold(s);
    hide Strtod, NumeralAt, ExponentAt, FractionEnd;
  }

  /** What strtod gives, when it has found these ends. */
  function StrtodOf(s: bytes, n: Numeral, end: nat): (nat, real)
    requires AreDigits(n.whole) && AreDigits(n.fraction) && end <= |s|
  {
    var digits := n.whole + n.fraction;
    assert AreDigits(digits);
    var m := Scale(DigitsValue(digits) as real, -|n.fraction|);
    var signed := if SignLength(s, 0) == 1 && s[0] == MINUS then -m else m;
    if digits == [] then (0, 0.0)
    else if end < |s| && (s[end] == LOWER_E || s[end] == UPPER_E) then
      var expStart := end + 1 + SignLength(s, end + 1);
      var expEnd := DigitsEnd(s, expStart);
      if expEnd == expStart then (end, signed)
      else
        var e: int := DigitsValue(s[expStart..expEnd]);
        (expEnd, Scale(signed, if s[end + 1] == MINUS then -e else e))
    else (end, signed)
  }

  lemma StrtodPieces(s: bytes)
    requires AreDigits(NumeralAt(s).whole) && AreDigits(NumeralAt(s).fraction)
    ensures Strtod(s) == StrtodOf(s, NumeralAt(s), FractionEnd(s))
  {
    hide DigitsEnd, SignLength, DigitsValue, Scale;
  }

  /** How much strtod reads, and what, in terms of the pieces. */
  lemma StrtodUnfold(s: bytes)
    ensures
      var n := NumeralAt(s);
      if n.whole + n.fraction == [] then Strtod(s) == (0, 0.0)
      else
        && IsNumeral(n) && Strtod(s).0 == FractionEnd(s) + |ExponentText(n.exponent)|
        && Strtod(s).1 == NumeralValue(n)
  {
    var n, end := NumeralAt(s), FractionEnd(s);
    MantissaAt(s);
    ExponentIs(s, end);
    assert n.exponent == ExponentAt(s, end);
    StrtodPieces(s);
    hide Strtod, NumeralAt, FractionEnd, AreDigits, DigitsValue, Scale;
    if n.whole + n.fraction != [] { StrtodMeans(s, n, end); }
  }

  lemma StrtodMeans(s: bytes, n: Numeral, end: nat)
    requires IsNumeral(n) && end <= |s| && n.exponent == ExponentAt(s, end)
    requires n.sign == [MINUS] <==> s != [] && s[0] == MINUS
    requires n.exponent.Exponent? ==> (n.exponent.sign == [MINUS] <==> s[end + 1] == MINUS)
    ensures StrtodOf(s, n, end) == (end + |ExponentText(n.exponent)|, NumeralValue(n))
  {
    hide DigitsEnd, DigitsValue, Scale, AreDigits;
  }

  lemma DigitAt(t: bytes, s: bytes, i: nat)
    requires AreDigits(t) && i + |t| <= |s| && s[i..i + |t|] == t
    ensures forall k :: i <= k < i + |t| ==> IsDigit(s[k])
  {
    forall k | i <= k < i + |t| ensures IsDigit(s[k]) { assert s[k] == t[k - i]; }
  }

  /** Where the mantissa's parts end in the text. */
  function WholeEnd(n: Numeral): nat { |n.sign| + |n.whole| }

  function MantissaEnd(n: Numeral): nat { WholeEnd(n) + |DotText(n)| }

  /** The text of a numeral, taken apart where strtod does. */
  lemma NumeralSplit(n: Numeral)
    ensures
      var t := NumeralText(n);
      && MantissaEnd(n) + |ExponentText(n.exponent)| == |t|
      && t[..|n.sign|] == n.sign && t[|n.sign|..WholeEnd(n)] == n.whole
      && t[WholeEnd(n)..MantissaEnd(n)] == DotText(n) && t[MantissaEnd(n)..] == ExponentText(n.exponent)
  {
    SplitFour(n.sign, n.whole, DotText(n), ExponentText(n.exponent));
    hide ExponentText;
  }

  lemma NumeralStart(n: Numeral)
    requires IsNumeral(n) && n.sign == []
    ensures var t := NumeralText(n); t != [] && t[0] != PLUS && t[0] != MINUS
  {
    FirstByte(n.whole, DotText(n), ExponentText(n.exponent));
    hide ExponentText;
    assert n.sign + (n.whole + (DotText(n) + ExponentText(n.exponent))) == n.whole + (DotText(n) + ExponentText(n.exponent));
  }

  lemma SplitFour(a: bytes, b: bytes, c: bytes, d: bytes)
    ensures
      var t := a + (b + (c + d));
      && t[..|a|] == a && t[|a|..|a| + |b|] == b && t[|a| + |b|..|a| + |b| + |c|] == c && t[|a| + |b| + |c|..] == d
  {
  }

  lemma FirstByte(whole: bytes, m: bytes, x: bytes)
    requires AreDigits(whole) && (m == [] || m[0] == DOT) && whole + m != []
    ensures var t := whole + (m + x); t != [] && t[0] != PLUS && t[0] != MINUS
  {
    if whole != [] { assert (whole + (m + x))[0] == whole[0]; } else { assert (whole + (m + x))[0] == m[0]; }
  }

  /** The exponent that strtod finds behind the mantissa. */
  lemma ExponentFound(s: bytes, end: nat, x: Exponent)
    requires end <= |s| && s[end..] == ExponentText(x)
    requires x.Exponent? ==>
      && (x.letter == LOWER_E || x.letter == UPPER_E) && IsSign(x.sign) && AreDigits(x.digits) && x.digits != []
    ensures ExponentAt(s, end) == x
  {
    if x.Exponent? {
      ExponentSplit(s, end, x);
      var start := end + 1 + |x.sign|;
      DigitAt(x.digits, s, start);
      hide DigitsEnd, AreDigits, ExponentText;
      SignFound(s[end + 1..], x.sign);
      assert SignLength(s, end + 1) == SignLength(s[end + 1..], 0);
      DigitsEndAt(s, start, |s|);
    }
  }

  lemma ExponentSplit(s: bytes, end: nat, x: Exponent)
    requires end <= |s| && x.Exponent? && s[end..] == ExponentText(x) && AreDigits(x.digits) && x.digits != []
    ensures
      var start := end + 1 + |x.sign|;
      && start + |x.digits| == |s| && s[end] == x.letter && s[end + 1..start] == x.sign && s[start..|s|] == x.digits
      && |x.sign| <= |s[end + 1..]| && s[end + 1..][..|x.sign|] == x.sign
      && (x.sign == [] ==> IsDigit(s[end + 1]))
  {
    var t := s[end..];
    assert t[0] == s[end] && t[1..] == s[end + 1..] == x.sign + x.digits;
    if x.sign == [] { assert s[end + 1] == (x.sign + x.digits)[0] == x.digits[0]; }
  }

  /** From where the parts end. */
  lemma NumeralFrom(s: bytes, n: Numeral, whole: nat, end: nat)
    requires |n.sign| <= whole <= end <= |s|
    requires s[..|n.sign|] == n.sign && s[|n.sign|..whole] == n.whole && ExponentAt(s, end) == n.exponent
    requires SignLength(s, 0) == |n.sign| && DigitsEnd(s, |n.sign|) == whole
    requires n.dot <==> whole < |s| && s[whole] == DOT
    requires if n.dot then whole < end && DigitsEnd(s, whole + 1) == end && s[whole + 1..end] == n.fraction
             else end == whole && n.fraction == []
    ensures NumeralAt(s) == n && FractionEnd(s) == end
  {
    hide DigitsEnd, SignLength, ExponentAt;
  }

  lemma WholeFound(n: Numeral)
    requires IsNumeral(n)
    ensures
      var t, whole := NumeralText(n), WholeEnd(n);
      && SignLength(t, 0) == |n.sign| && DigitsEnd(t, |n.sign|) == whole
      && (n.dot <==> whole < |t| && t[whole] == DOT)
  {
    NumeralSplit(n);
    ExponentStart(n);
    if n.sign == [] { NumeralStart(n); }
    var t := NumeralText(n);
    hide NumeralText, DigitsEnd, SignLength, ExponentText;
    SignFound(t, n.sign);
    NextByte(t, WholeEnd(n), MantissaEnd(n), DotText(n), ExponentText(n.exponent));
    hide MantissaEnd, DotText;
    DigitAt(n.whole, t, |n.sign|);
    hide AreDigits;
    DigitsEndAt(t, |n.sign|, WholeEnd(n));
  }

  lemma ExponentStart(n: Numeral)
    requires IsNumeral(n)
    ensures var x := ExponentText(n.exponent); x != [] ==> x[0] == LOWER_E || x[0] == UPPER_E
  {
  }

  lemma FractionFound(n: Numeral)
    requires IsNumeral(n) && n.dot
    ensures
      var t, whole, end := NumeralText(n), WholeEnd(n), MantissaEnd(n);
      && whole < end <= |t|
      && DigitsEnd(t, whole + 1) == end && t[whole + 1..end] == n.fraction
  {
    var t, whole, end := NumeralText(n), WholeEnd(n), MantissaEnd(n);
    DotSplit(n);
    hide NumeralText, DigitsEnd, WholeEnd, MantissaEnd, AreDigits;
    SliceTail(t, whole, end, n.fraction);
    DigitAt(n.fraction, t, whole + 1);
    DigitsEndAt(t, whole + 1, end);
  }

  lemma DotSplit(n: Numeral)
    requires IsNumeral(n) && n.dot
    ensures
      var t, whole, end := NumeralText(n), WholeEnd(n), MantissaEnd(n);
      && whole < end <= |t| && end == whole + 1 + |n.fraction| && t[whole..end] == [DOT] + n.fraction
      && (end == |t| || !IsDigit(t[end]))
  {
    NumeralSplit(n);
    ExponentStart(n);
    var t, end := NumeralText(n), MantissaEnd(n);
    assert DotText(n) == [DOT] + n.fraction;
    hide NumeralText, ExponentText, AreDigits, DotText;
    if end < |t| { assert t[end] == t[end..][0]; }
  }

  lemma SliceTail(t: bytes, i: nat, j: nat, rest: bytes)
    requires i < j <= |t| && t[i..j] == [DOT] + rest
    ensures t[i + 1..j] == rest
  {
    assert t[i + 1..j] == t[i..j][1..];
  }

  lemma NumeralFound(n: Numeral)
    requires IsNumeral(n)
    ensures NumeralAt(NumeralText(n)) == n
    ensures FractionEnd(NumeralText(n)) + |ExponentText(n.exponent)| == |NumeralText(n)|
  {
    WholeFound(n);
    if n.dot { FractionFound(n); } else { assert MantissaEnd(n) == WholeEnd(n); }
    NumeralSplit(n);
    hide NumeralText, DigitsEnd, SignLength, ExponentAt, NumeralAt, FractionEnd, ExponentText, AreDigits;
    hide WholeEnd, MantissaEnd, DotText;
    ExponentFound(NumeralText(n), MantissaEnd(n), n.exponent);
    NumeralFrom(NumeralText(n), n, WholeEnd(n), MantissaEnd(n));
  }

  lemma SignFound(s: bytes, sign: bytes)
    requires IsSign(sign) && |sign| <= |s| && s[..|sign|] == sign
    requires sign == [] && s != [] ==> s[0] != PLUS && s[0] != MINUS
    ensures SignLength(s, 0) == |sign|
  {
    if sign != [] { assert s[0] == sign[0]; }
  }

  /** What follows the digits is no digit. */
  lemma NextByte(s: bytes, whole: nat, end: nat, m: bytes, x: bytes)
    requires whole <= end <= |s| && s[whole..end] == m && s[end..] == x
    requires m == [] || m[0] == DOT
    requires x == [] || x[0] == LOWER_E || x[0] == UPPER_E
    ensures whole == |s| || !IsDigit(s[whole])
    ensures end == |s| || !IsDigit(s[end])
    ensures m != [] <==> whole < |s| && s[whole] == DOT
  {
    if m != [] { assert s[whole] == m[0]; }
    if x != [] { assert s[end] == x[0]; }
  }

  /** strtod reads every number to its end. */
  lemma NumeralStrtod(n: Numeral)
    requires IsNumeral(n)
    ensures Strtod(NumeralText(n)) == (|NumeralText(n)|, NumeralValue(n))
  {
    hide Strtod, NumeralText, NumeralAt, FractionEnd, ExponentText, NumeralValue, AreDigits;
    NumeralFound(n);
    StrtodUnfold(NumeralText(n));
  }

  lemma NumeralBytes(n: Numeral)
    requires IsNumeral(n)
    ensures forall i :: 0 <= i < |NumeralText(n)| ==> IsNumberByte(NumeralText(n)[i])
  {
    var t := NumeralText(n);
    forall i | 0 <= i < |t| ensures IsNumberByte(t[i]) {
      assert t[i] in n.sign || t[i] in n.whole || t[i] in DotText(n) || t[i] in ExponentText(n.exponent);
    }
  }

  // ----- strings -----

  /** The quote at `q` is the first one from `i` on that is not behind a backslash. */
  predicate Closes(c: bytes, i: nat, q: nat)
    decreases q - i
  {
    q < |c| && c[q] == QUOTE && i <= q &&
    (i == q || if c[i] == BACKSLASH then Closes(c, i + 2, q) else c[i] != QUOTE && Closes(c, i + 1, q))
  }

  lemma {:induction false} ClosesExactly(c: bytes, i: nat, q: nat)
    ensures StringEnd(c, i).Ok? && StringEnd(c, i).next == q <==> Closes(c, i, q)
    decreases |c| - i
  {
    if i < |c| && c[i] == BACKSLASH {
      if i + 1 < |c| { ClosesExactly(c, i + 2, q); }
    } else if i < |c| && c[i] != QUOTE {
      ClosesExactly(c, i + 1, q);
    }
  }

  /**
   * What stands at `p` and is `length` bytes long stands for these bytes: a byte for itself, an escape of two characters
   * for its character, one or two of the form \uXXXX for the UTF-8 encoding of a code point, or, when its digits are
   * malformed, for NUL.
   */
  ghost predicate StandsFor(c: bytes, p: nat, end: nat, length: nat, t: bytes)
    requires p < end < |c|
  {
    if c[p] != BACKSLASH then length == 1 && t == [c[p]]
    else if c[p + 1] != LOWER_U then length == 2 && c[p + 1] in ESCAPES && t == [ESCAPES[c[p + 1]]]
    else if p + 6 <= end && !HexDigitsAt(c, p + 2) then length == 6 && t == [NUL]
    else exists u: nat :: Denotes(c, p, end, u, length) && EncodesUtf8(t, u)
  }

  lemma DenotesInside(c: bytes, p: nat, end: nat, u: nat, length: nat)
    requires Denotes(c, p, end, u, length)
    ensures p + 6 <= end && HexDigitsAt(c, p + 2) && u <= 0x10FFFF
  {
  }

  lemma StandsExactly(c: bytes, p: nat, end: nat, length: nat, t: bytes)
    requires p < end < |c|
    ensures DecodeOne(c, p, end) == Ok(t, p + length) <==> StandsFor(c, p, end, length, t)
  {
    hide Utf8, EncodesUtf8, Denotes, HexDigitsAt, Utf16Literal, UnescapeLetter;
    if c[p] != BACKSLASH {
    } else if c[p + 1] != LOWER_U {
      EscapesDecode(c, p, end);
    } else if p + 6 <= end && !HexDigitsAt(c, p + 2) {
      MalformedDigitsAreNul(c, p, end);
    } else {
      hide DecodeOne;
      if DecodeOne(c, p, end) == Ok(t, p + length) {
        UnitFits(c, p, end);
        var u := OnlyDenotingDecodes(c, p, end);
        EscapeDecodes(c, p, end, u, length);
      }
      if u: nat :| Denotes(c, p, end, u, length) && EncodesUtf8(t, u) {
        EscapeDecodes(c, p, end, u, length);
        DenotesInside(c, p, end, u, length);
        Utf8Unique(t, u);
        Utf8Unique(DecodeOne(c, p, end).value, u);
      }
    }
  }

  lemma UnitFits(c: bytes, p: nat, end: nat)
    requires p < end < |c| && c[p] == BACKSLASH && c[p + 1] == LOWER_U && DecodeOne(c, p, end).Ok?
    ensures p + 6 <= end
  {
  }

  /** What stands in [p, end), one after the other, stands for these bytes. */
  ghost predicate Spells(c: bytes, p: nat, end: nat, t: bytes)
    requires end < |c|
    decreases |c| - p
  {
    if p >= end then t == []
    else exists length: nat, k: nat {:trigger StandsFor(c, p, end, length, t[..k])} ::
      length > 0 && k <= |t| && StandsFor(c, p, end, length, t[..k]) && Spells(c, p + length, end, t[k..])
  }

  lemma {:induction false} SpellsExactly(c: bytes, p: nat, end: nat, t: bytes)
    requires end < |c|
    ensures Decode(c, p, end).Ok? && Decode(c, p, end).value == t <==> Spells(c, p, end, t)
    decreases |c| - p
  {
    hide DecodeOne, StandsFor;
    if p < end {
      var one := DecodeOne(c, p, end);
      if one.Ok? && Decode(c, p, end).Ok? && Decode(c, p, end).value == t {
        var k, length := |one.value|, one.next - p;
        assert t[..k] == one.value && t[k..] == Decode(c, one.next, end).value;
        StandsExactly(c, p, end, length, t[..k]);
        SpellsExactly(c, one.next, end, t[k..]);
      }
      if Spells(c, p, end, t) {
        var length: nat, k: nat :| length > 0 && k <= |t| && StandsFor(c, p, end, length, t[..k])
          && Spells(c, p + length, end, t[k..]);
        StandsExactly(c, p, end, length, t[..k]);
        SpellsExactly(c, p + length, end, t[k..]);
        assert t == t[..k] + t[k..];
      }
    }
  }

  /** A string in quotes; what a C string holds of it ends with the first NUL. */
  ghost predicate ReadsString(c: bytes, o: nat, e: nat, s: bytes) {
    && o + 1 < e <= |c| && c[o] == QUOTE && Closes(c, o + 1, e - 1)
    && exists t :: Spells(c, o + 1, e - 1, t) && s == UpToNul(t)
  }

  lemma StringExactly(c: bytes, o: nat, e: nat, s: bytes)
    ensures ParseString(c, o) == Ok(s, e) <==> ReadsString(c, o, e, s)
  {
    hide StringEnd, Decode, Closes, Spells;
    if o < |c| && c[o] == QUOTE {
      if e > 0 { ClosesExactly(c, o + 1, e - 1); }
      var end := StringEnd(c, o + 1);
      if end.Ok? && end.next + 1 == e {
        var out := Decode(c, o + 1, end.next);
        if out.Ok? { SpellsExactly(c, o + 1, end.next, out.value); }
        if ReadsString(c, o, e, s) {
          var t :| Spells(c, o + 1, e - 1, t) && s == UpToNul(t);
          SpellsExactly(c, o + 1, end.next, t);
        }
      }
    }
  }

  // ----- values -----

  ghost predicate ReadsNumber(c: bytes, o: nat, e: nat, d: real) {
    o < e <= |c| && e - o <= 63 && (c[o] == MINUS || IsDigit(c[o])) && IsNumber(c[o..e], d)
  }

  /** Blanks, and a byte that ends something. */
  predicate ReadsEnd(c: bytes, o: nat, e: nat, b: byte) {
    o < e <= |c| && Blanks(c, o, e - 1) && c[e - 1] == b
  }

  /** A name with its colon, and blanks in front of both. */
  ghost predicate ReadsKey(c: bytes, o: nat, e: nat, key: bytes) {
    exists a: nat, q: nat :: Blanks(c, o, a) && ReadsString(c, a, q, key) && ReadsEnd(c, q, e, COLON)
  }

  /** [o, e) is a text of the tree. */
  ghost predicate Reads(c: bytes, o: nat, e: nat, v: Value)
    decreases v, 0
  {
    match v
    case Null => At(c, o, NULL_TEXT) && e == o + 4
    case Bool(b) => if b then At(c, o, TRUE_TEXT) && e == o + 4 else At(c, o, FALSE_TEXT) && e == o + 5
    case Num(d) => ReadsNumber(c, o, e, d)
    case Str(s) => ReadsString(c, o, e, s)
    case Arr(items) =>
      o < |c| && c[o] == LBRACKET
      && if items == [] then ReadsEnd(c, o + 1, e, RBRACKET) else ReadsItems(c, o + 1, e, items)
    case Obj(members) =>
      o < |c| && c[o] == LBRACE
      && if members == [] then ReadsEnd(c, o + 1, e, RBRACE) else ReadsMembers(c, o + 1, e, members)
  }

  /** Items with blanks around them, commas between them, and the closing bracket. */
  ghost predicate ReadsItems(c: bytes, o: nat, e: nat, items: seq<Value>)
    requires items != []
    decreases items, 0
  {
    exists a: nat, b: nat, k: nat {:trigger Blanks(c, o, a), Blanks(c, b, k)} ::
      Blanks(c, o, a) && Reads(c, a, b, items[0]) && Blanks(c, b, k) && k < |c|
      && if |items| == 1 then c[k] == RBRACKET && e == k + 1 else c[k] == COMMA && ReadsItems(c, k + 1, e, items[1..])
  }

  /** The same for members. */
  ghost predicate ReadsMembers(c: bytes, o: nat, e: nat, members: seq<Member<Value>>)
    requires members != []
    decreases members, 0
  {
    exists p: nat, a: nat, b: nat, k: nat {:trigger ReadsKey(c, o, p, members[0].key), Blanks(c, p, a), Blanks(c, b, k)} ::
      && ReadsKey(c, o, p, members[0].key)
      && Blanks(c, p, a) && Reads(c, a, b, members[0].item) && Blanks(c, b, k) && k < |c|
      && if |members| == 1 then c[k] == RBRACE && e == k + 1 else c[k] == COMMA && ReadsMembers(c, k + 1, e, members[1..])
  }

  lemma SplitItemsRead(c: bytes, o: nat, e: nat, items: seq<Value>) returns (a: nat, b: nat, k: nat)
    requires items != [] && ReadsItems(c, o, e, items)
    ensures Blanks(c, o, a) && Reads(c, a, b, items[0]) && Blanks(c, b, k) && k < |c|
    ensures if |items| == 1 then c[k] == RBRACKET && e == k + 1 else c[k] == COMMA && ReadsItems(c, k + 1, e, items[1..])
  {
    hide Blanks;
    a, b, k :| Blanks(c, o, a) && Reads(c, a, b, items[0]) && Blanks(c, b, k) && k < |c|
      && if |items| == 1 then c[k] == RBRACKET && e == k + 1 else c[k] == COMMA && ReadsItems(c, k + 1, e, items[1..]);
  }

  lemma JoinItemsRead(c: bytes, o: nat, e: nat, items: seq<Value>, a: nat, b: nat, k: nat)
    requires items != [] && Blanks(c, o, a) && Reads(c, a, b, items[0]) && Blanks(c, b, k) && k < |c|
    requires if |items| == 1 then c[k] == RBRACKET && e == k + 1 else c[k] == COMMA && ReadsItems(c, k + 1, e, items[1..])
    ensures ReadsItems(c, o, e, items)
  {
    hide Blanks;
  }

  lemma SplitMembersRead(c: bytes, o: nat, e: nat, members: seq<Member<Value>>) returns (p: nat, a: nat, b: nat, k: nat)
    requires members != [] && ReadsMembers(c, o, e, members)
    ensures ReadsKey(c, o, p, members[0].key)
    ensures Blanks(c, p, a) && Reads(c, a, b, members[0].item) && Blanks(c, b, k) && k < |c|
    ensures if |members| == 1 then c[k] == RBRACE && e == k + 1 else c[k] == COMMA && ReadsMembers(c, k + 1, e, members[1..])
  {
    hide Blanks, ReadsKey;
    p, a, b, k :| ReadsKey(c, o, p, members[0].key)
      && Blanks(c, p, a) && Reads(c, a, b, members[0].item) && Blanks(c, b, k) && k < |c|
      && if |members| == 1 then c[k] == RBRACE && e == k + 1 else c[k] == COMMA && ReadsMembers(c, k + 1, e, members[1..]);
  }

  lemma JoinMembersRead(c: bytes, o: nat, e: nat, members: seq<Member<Value>>, p: nat, a: nat, b: nat, k: nat)
    requires members != [] && ReadsKey(c, o, p, members[0].key)
    requires Blanks(c, p, a) && Reads(c, a, b, members[0].item) && Blanks(c, b, k) && k < |c|
    requires if |members| == 1 then c[k] == RBRACE && e == k + 1 else c[k] == COMMA && ReadsMembers(c, k + 1, e, members[1..])
    ensures ReadsMembers(c, o, e, members)
  {
    hide Blanks, ReadsKey;
  }

  // ----- what the parser takes is in the grammar -----

  /** Whatever is skipped are blanks. */
  lemma SkippedBlanks(c: bytes, o: nat)
    requires o <= |c|
    ensures Blanks(c, o, SkipBlanks(c, o))
  {
  }

  lemma MoreBlanks(c: bytes, o: nat, a: nat, b: nat)
    requires Blanks(c, o, a) && Blanks(c, a, b)
    ensures Blanks(c, o, b)
  {
  }

  lemma NumberSound(c: bytes, o: nat)
    requires o < |c| && (c[o] == MINUS || IsDigit(c[o])) && ParseNumber(c, o).Ok?
    ensures ParseNumber(c, o).value.Num? && ReadsNumber(c, o, ParseNumber(c, o).next, ParseNumber(c, o).value.d)
  {
    hide Strtod, IsNumeral, NumeralText, NumeralValue, NumeralAt;
    var s := c[o..o + NumberSpan(c, o, NUMBER_LIMIT)];
    var used := Strtod(s).0;
    StrtodReads(s);
    assert s[..used] == c[o..o + used];
    assert IsNumber(c[o..o + used], Strtod(s).1);
  }

  lemma {:induction false} ValueSound(c: bytes, o: nat, depth: int)
    requires ParseValue(c, o, depth).Ok?
    ensures Reads(c, o, ParseValue(c, o, depth).next, ParseValue(c, o, depth).value)
    ensures depth <= NESTING_LIMIT ==> depth + Nest(ParseValue(c, o, depth).value) <= NESTING_LIMIT
    decreases |c| - o, 1
  {
    hide ParseItems, ParseMembers, ParseString, ParseNumber, SkipBlanks, ReadsItems, ReadsMembers, ReadsString, ReadsNumber;
    if At(c, o, NULL_TEXT) || At(c, o, FALSE_TEXT) || At(c, o, TRUE_TEXT) {
    } else if c[o] == QUOTE {
      StringExactly(c, o, ParseString(c, o).next, ParseString(c, o).value);
    } else if c[o] == MINUS || IsDigit(c[o]) {
      NumberSound(c, o);
    } else if c[o] == LBRACKET {
      ArraySound(c, o, depth);
    } else {
      ObjectSound(c, o, depth);
    }
  }

  lemma {:induction false} ArraySound(c: bytes, o: nat, depth: int)
    requires o < |c| && c[o] == LBRACKET && ParseArray(c, o, depth).Ok?
    ensures Reads(c, o, ParseArray(c, o, depth).next, ParseArray(c, o, depth).value)
    ensures depth <= NESTING_LIMIT ==> depth + Nest(ParseArray(c, o, depth).value) <= NESTING_LIMIT
    decreases |c| - o, 0
  {
    hide ParseItems, SkipBlanks, Blanks, ReadsItems;
    var first := SkipBlanks(c, o + 1);
    SkippedBlanks(c, o + 1);
    if c[first] != RBRACKET {
      var items := ParseItems(c, first, depth + 1);
      ItemsSound(c, first, depth + 1);
      ItemsBehindBlanks(c, o + 1, first, items.next, items.value);
    }
  }

  lemma ItemsBehindBlanks(c: bytes, o: nat, first: nat, e: nat, items: seq<Value>)
    requires items != [] && Blanks(c, o, first) && ReadsItems(c, first, e, items)
    ensures ReadsItems(c, o, e, items)
  {
    hide ReadsItems, Blanks;
    var a, b, k := SplitItemsRead(c, first, e, items);
    MoreBlanks(c, o, first, a);
    JoinItemsRead(c, o, e, items, a, b, k);
  }

  lemma {:induction false} ItemsSound(c: bytes, o: nat, depth: int)
    requires ParseItems(c, o, depth).Ok? && o <= |c|
    ensures ParseItems(c, o, depth).value != []
    ensures ReadsItems(c, o, ParseItems(c, o, depth).next, ParseItems(c, o, depth).value)
    ensures depth <= NESTING_LIMIT ==> depth + NestItems(ParseItems(c, o, depth).value) <= NESTING_LIMIT
    decreases |c| - o, 2
  {
    hide ParseValue, SkipBlanks, Blanks, Reads, ReadsItems, Nest;
    var a := SkipBlanks(c, o);
    SkippedBlanks(c, o);
    var v := ParseValue(c, a, depth);
    ValueSound(c, a, depth);
    SkippedBlanks(c, v.next);
    var k := SkipBlanks(c, v.next);
    var r := ParseItems(c, o, depth);
    if c[k] == COMMA {
      ItemsSound(c, k + 1, depth);
      assert r.value[1..] == ParseItems(c, k + 1, depth).value;
    } else {
      assert r.value[1..] == [];
    }
    JoinItemsRead(c, o, r.next, r.value, a, v.next, k);
  }

  lemma {:induction false} ObjectSound(c: bytes, o: nat, depth: int)
    requires o < |c| && c[o] == LBRACE && ParseObject(c, o, depth).Ok?
    ensures Reads(c, o, ParseObject(c, o, depth).next, ParseObject(c, o, depth).value)
    ensures depth <= NESTING_LIMIT ==> depth + Nest(ParseObject(c, o, depth).value) <= NESTING_LIMIT
    decreases |c| - o, 0
  {
    hide ParseMembers, SkipBlanks, Blanks, ReadsMembers;
    var first := SkipBlanks(c, o + 1);
    SkippedBlanks(c, o + 1);
    if c[first] != RBRACE {
      var members := ParseMembers(c, first, depth + 1);
      MembersSound(c, first, depth + 1);
      MembersBehindBlanks(c, o + 1, first, members.next, members.value);
    }
  }

  lemma KeyBehindBlanks(c: bytes, o: nat, first: nat, e: nat, key: bytes)
    requires Blanks(c, o, first) && ReadsKey(c, first, e, key)
    ensures ReadsKey(c, o, e, key)
  {
    hide ReadsString, ReadsEnd, Blanks;
    var a: nat, q: nat :| Blanks(c, first, a) && ReadsString(c, a, q, key) && ReadsEnd(c, q, e, COLON);
    MoreBlanks(c, o, first, a);
  }

  lemma MembersBehindBlanks(c: bytes, o: nat, first: nat, e: nat, members: seq<Member<Value>>)
    requires members != [] && Blanks(c, o, first) && ReadsMembers(c, first, e, members)
    ensures ReadsMembers(c, o, e, members)
  {
    hide ReadsMembers, Blanks, ReadsKey;
    var p, a, b, k := SplitMembersRead(c, first, e, members);
    KeyBehindBlanks(c, o, first, p, members[0].key);
    JoinMembersRead(c, o, e, members, p, a, b, k);
  }

  /** The name of a member that is parsed, and where its value begins. */
  lemma KeySound(c: bytes, o: nat, depth: int)
    requires ParseMember(c, o, depth).Ok? && o <= |c|
    ensures
      var key := ParseString(c, SkipBlanks(c, o));
      && key.Ok? && key.value == ParseMember(c, o, depth).value.key
      && var p := SkipBlanks(c, key.next) + 1;
         p <= |c| && ReadsKey(c, o, p, key.value) && Blanks(c, p, SkipBlanks(c, p))
         && ParseValue(c, SkipBlanks(c, p), depth) == Ok(ParseMember(c, o, depth).value.item, ParseMember(c, o, depth).next)
  {
    hide ParseString, ParseValue, SkipBlanks, Blanks, ReadsString;
    SkippedBlanks(c, o);
    var key := ParseString(c, SkipBlanks(c, o));
    StringExactly(c, SkipBlanks(c, o), key.next, key.value);
    SkippedBlanks(c, key.next);
    var k := SkipBlanks(c, key.next);
    SkippedBlanks(c, k + 1);
    assert ReadsEnd(c, key.next, k + 1, COLON) by { assert k + 1 - 1 == k; BlanksUpTo(c, key.next); }
  }

  lemma BlanksUpTo(c: bytes, o: nat)
    requires o <= |c|
    ensures o <= SkipBlanks(c, o)
  {
  }

  lemma {:induction false} MembersSound(c: bytes, o: nat, depth: int)
    requires ParseMembers(c, o, depth).Ok? && o <= |c|
    ensures ParseMembers(c, o, depth).value != []
    ensures ReadsMembers(c, o, ParseMembers(c, o, depth).next, ParseMembers(c, o, depth).value)
    ensures depth <= NESTING_LIMIT ==> depth + NestMembers(ParseMembers(c, o, depth).value) <= NESTING_LIMIT
    decreases |c| - o, 2
  {
    hide ParseMember, ParseValue, ParseString, SkipBlanks, Blanks, Reads, ReadsMembers, ReadsKey, Nest;
    var m := ParseMember(c, o, depth);
    KeySound(c, o, depth);
    var p := SkipBlanks(c, ParseString(c, SkipBlanks(c, o)).next) + 1;
    var a := SkipBlanks(c, p);
    assert a >= p > o by { BlanksUpTo(c, p); BlanksUpTo(c, o); }
    ValueSound(c, a, depth);
    SkippedBlanks(c, m.next);
    var k := SkipBlanks(c, m.next);
    var r := ParseMembers(c, o, depth);
    if c[k] == COMMA {
      MembersSound(c, k + 1, depth);
      assert r.value[1..] == ParseMembers(c, k + 1, depth).value;
    } else {
      assert r.value[1..] == [];
    }
    JoinMembersRead(c, o, r.next, r.value, p, a, m.next, k);
  }

  // ----- what is in the grammar is taken -----

  /** A text is not empty, stays inside the buffer, and starts with a byte that is no blank. */
  lemma ReadsStart(c: bytes, o: nat, e: nat, v: Value)
    requires Reads(c, o, e, v)
    ensures o < |c| && IsValueStart(c[o]) && c[o] > SPACE
  {
    hide ReadsItems, ReadsMembers, IsNumber, Spells, Closes;
    match v
    case Null => AtFirst(c, o, NULL_TEXT);
    case Bool(b) => AtFirst(c, o, if b then TRUE_TEXT else FALSE_TEXT);
    case _ =>
  }

  lemma NumberComplete(c: bytes, o: nat, e: nat, d: real)
    requires ReadsNumber(c, o, e, d) && Delimited(c, e)
    ensures ParseNumber(c, o) == Ok(Num(d), e)
  {
    hide Strtod, IsNumeral, NumeralText, NumeralValue, NumberSpan, IsNumberByte, IsDigit;
    NumberRead(c[o..e], d);
    forall i | o <= i < e ensures IsNumberByte(c[i]) {
      assert c[i] == c[o..e][i - o];
    }
    NumberSpanAt(c, o, e - o, NUMBER_LIMIT);
  }

  lemma NumberRead(t: bytes, d: real)
    requires IsNumber(t, d)
    ensures Strtod(t) == (|t|, d) && forall i :: 0 <= i < |t| ==> IsNumberByte(t[i])
  {
    hide Strtod, IsNumeral, NumeralText, NumeralValue, IsNumberByte;
    var n :| IsNumeral(n) && NumeralText(n) == t && NumeralValue(n) == d;
    NumeralBytes(n);
    NumeralStrtod(n);
  }

  lemma ScalarComplete(c: bytes, o: nat, e: nat, v: Value, depth: int)
    requires !v.Arr? && !v.Obj? && Reads(c, o, e, v) && Delimited(c, e)
    ensures ParseValue(c, o, depth) == Ok(v, e)
  {
    ReadsStart(c, o, e, v);
    hide At, ParseNumber, ParseString, ParseItems, ParseMembers, SkipBlanks, ReadsNumber, ReadsString;
    match v
    case Null =>
    case Bool(b) =>
      AtFirst(c, o, if b then TRUE_TEXT else FALSE_TEXT);
      LiteralAbsent(c, o, NULL_TEXT);
      if b { LiteralAbsent(c, o, FALSE_TEXT); }
    case Num(d) =>
      NumberFirst(c, o, e, d);
      LiteralsAbsent(c, o);
      NumberComplete(c, o, e, d);
    case Str(s) =>
      StringExactly(c, o, e, s);
      assert c[o] == QUOTE by { StringFirst(c, o, e, s); }
      LiteralsAbsent(c, o);
  }

  lemma NumberFirst(c: bytes, o: nat, e: nat, d: real)
    requires ReadsNumber(c, o, e, d)
    ensures o < |c| && (c[o] == MINUS || IsDigit(c[o]))
  {
  }

  lemma StringFirst(c: bytes, o: nat, e: nat, s: bytes)
    requires ReadsString(c, o, e, s)
    ensures o < |c| && c[o] == QUOTE
  {
  }

  /** Blanks up to a byte that is none. */
  lemma EndSkipped(c: bytes, o: nat, e: nat, b: byte)
    requires ReadsEnd(c, o, e, b) && b > SPACE
    ensures SkipBlanks(c, o) == e - 1 < |c| && c[e - 1] == b
  {
    SkipBlanksAt(c, o, e - 1);
  }

  lemma {:induction false} ValueComplete(c: bytes, o: nat, e: nat, v: Value, depth: int)
    requires Reads(c, o, e, v) && Delimited(c, e) && depth <= NESTING_LIMIT
    ensures ParseValue(c, o, depth) == Expected(depth, Nest(v), v, e)
    decreases v, 0
  {
    hide ParseValue, Delimited, Expected, ParseArray, ParseObject;
    match v
    case Arr(items) =>
      ContainerDispatch(c, o, depth);
      ArrayComplete(c, o, e, items, depth);
    case Obj(members) =>
      ContainerDispatch(c, o, depth);
      ObjectComplete(c, o, e, members, depth);
    case _ =>
      ScalarComplete(c, o, e, v, depth);
      ScalarExpected(v, depth, e);
  }

  lemma ScalarExpected(v: Value, depth: int, e: nat)
    requires !v.Arr? && !v.Obj? && depth <= NESTING_LIMIT
    ensures Expected(depth, Nest(v), v, e) == Ok(v, e)
  {
  }

  lemma {:induction false} ArrayComplete(c: bytes, o: nat, e: nat, items: seq<Value>, depth: int)
    requires Reads(c, o, e, Arr(items)) && depth <= NESTING_LIMIT
    ensures ParseArray(c, o, depth) == Expected(depth, Nest(Arr(items)), Arr(items), e)
    decreases items, 1
  {
    hide ParseItems, SkipBlanks, Blanks, ReadsItems, ReadsEnd;
    if items == [] {
      EndSkipped(c, o + 1, e, RBRACKET);
    } else {
      var a, b, k := SplitItemsRead(c, o + 1, e, items);
      ReadsStart(c, a, b, items[0]);
      SkipBlanksAt(c, o + 1, a);
      NoBlanks(c, a);
      JoinItemsRead(c, a, e, items, a, b, k);
      if depth < NESTING_LIMIT { ItemsComplete(c, a, e, items, depth + 1); }
    }
  }

  /** What stands behind a value ends it. */
  lemma EndsValue(c: bytes, b: nat, k: nat)
    requires Blanks(c, b, k) && k < |c| && (c[k] == COMMA || c[k] == RBRACKET || c[k] == RBRACE)
    ensures Delimited(c, b) && SkipBlanks(c, b) == k
  {
    SkipBlanksAt(c, b, k);
  }

  lemma {:induction false} ItemsComplete(c: bytes, o: nat, e: nat, items: seq<Value>, depth: int)
    requires items != [] && ReadsItems(c, o, e, items) && depth <= NESTING_LIMIT
    ensures ParseItems(c, o, depth) == Expected(depth, NestItems(items), items, e)
    decreases items, 0
  {
    hide ParseValue, SkipBlanks, Blanks, ReadsItems, Reads, Delimited, Nest;
    var a, b, k := SplitItemsRead(c, o, e, items);
    ReadsStart(c, a, b, items[0]);
    SkipBlanksAt(c, o, a);
    EndsValue(c, b, k);
    ValueComplete(c, a, b, items[0], depth);
    assert NestItems(items) == Max(Nest(items[0]), NestItems(items[1..]));
    if |items| == 1 {
      assert items == [items[0]] && NestItems(items[1..]) == 0;
    } else {
      assert [items[0]] + items[1..] == items;
      ItemsComplete(c, k + 1, e, items[1..], depth);
    }
  }

  lemma {:induction false} ObjectComplete(c: bytes, o: nat, e: nat, members: seq<Member<Value>>, depth: int)
    requires Reads(c, o, e, Obj(members)) && depth <= NESTING_LIMIT
    ensures ParseObject(c, o, depth) == Expected(depth, Nest(Obj(members)), Obj(members), e)
    decreases members, 1
  {
    hide ParseMembers, SkipBlanks, Blanks, ReadsMembers, ReadsEnd, ReadsKey;
    if members == [] {
      EndSkipped(c, o + 1, e, RBRACE);
    } else {
      var p, a, b, k := SplitMembersRead(c, o + 1, e, members);
      var start := KeyStart(c, o + 1, p, members[0].key);
      SkipBlanksAt(c, o + 1, start);
      JoinMembersRead(c, start, e, members, p, a, b, k);
      if depth < NESTING_LIMIT { MembersComplete(c, start, e, members, depth + 1); }
    }
  }

  /** Where the name stands, from where it is read as well. */
  lemma KeyStart(c: bytes, o: nat, e: nat, key: bytes) returns (a: nat)
    requires ReadsKey(c, o, e, key)
    ensures Blanks(c, o, a) && a < |c| && c[a] == QUOTE && ReadsKey(c, a, e, key)
  {
    hide Blanks, ReadsEnd, Closes, Spells;
    var q: nat;
    a, q :| Blanks(c, o, a) && ReadsString(c, a, q, key) && ReadsEnd(c, q, e, COLON);
    NoBlanks(c, a);
  }

  lemma KeyComplete(c: bytes, o: nat, e: nat, key: bytes)
    requires ReadsKey(c, o, e, key)
    ensures
      var r := ParseString(c, SkipBlanks(c, o));
      && r.Ok? && r.value == key && e > 0 && SkipBlanks(c, r.next) == e - 1 < |c| && c[e - 1] == COLON
  {
    var a: nat, q: nat :| Blanks(c, o, a) && ReadsString(c, a, q, key) && ReadsEnd(c, q, e, COLON);
    StringFirst(c, a, q, key);
    SkipBlanksAt(c, o, a);
    hide ParseString, SkipBlanks, Blanks, ReadsString;
    StringExactly(c, a, q, key);
    EndSkipped(c, q, e, COLON);
  }

  lemma {:induction false} MembersComplete(c: bytes, o: nat, e: nat, members: seq<Member<Value>>, depth: int)
    requires members != [] && ReadsMembers(c, o, e, members) && depth <= NESTING_LIMIT
    ensures ParseMembers(c, o, depth) == Expected(depth, NestMembers(members), members, e)
    decreases members, 0
  {
    hide ParseMember, SkipBlanks, Blanks, ReadsMembers, Reads, ReadsKey, Delimited, Nest;
    var p, a, b, k := SplitMembersRead(c, o, e, members);
    var m := members[0];
    EndsValue(c, b, k);
    MemberComplete(c, o, p, a, b, m, depth);
    assert NestMembers(members) == Max(Nest(m.item), NestMembers(members[1..]));
    if |members| == 1 {
      assert members == [m] && NestMembers(members[1..]) == 0;
    } else {
      assert [m] + members[1..] == members;
      MembersComplete(c, k + 1, e, members[1..], depth);
    }
  }

  lemma {:induction false} MemberComplete(c: bytes, o: nat, p: nat, a: nat, b: nat, m: Member<Value>, depth: int)
    requires ReadsKey(c, o, p, m.key) && Blanks(c, p, a) && Reads(c, a, b, m.item) && Delimited(c, b)
    requires depth <= NESTING_LIMIT
    ensures ParseMember(c, o, depth) == Expected(depth, Nest(m.item), m, b)
    decreases m, 0
  {
    hide ParseValue, ParseString, SkipBlanks, Blanks, Reads, ReadsKey, Nest, Delimited;
    KeyComplete(c, o, p, m.key);
    ReadsStart(c, a, b, m.item);
    SkipBlanksAt(c, p, a);
    ValueComplete(c, a, b, m.item, depth);
  }

  // ----- documents -----

  /** A byte order mark, if the buffer begins with one and goes on, blanks, and the text of a tree. */
  ghost predicate ReadsDocument(c: bytes, e: nat, v: Value) {
    exists a: nat :: Blanks(c, if |c| > 4 && At(c, 0, BOM) then 3 else 0, a) && Reads(c, a, e, v)
  }

  /**
   * The parser takes exactly the documents of the grammar with at most 1000 nested containers. What it returns
   * is read from the buffer; and what can be read, up to a byte that does not go on with a number, is returned, or refused
   * as it nests too deep. Whatever follows the document is not looked at.
   */
  lemma ParsesExactly(c: bytes, e: nat, v: Value)
    ensures ParseDocument(c, false) == Ok(v, e) ==> ReadsDocument(c, e, v) && Nest(v) <= 1000
    ensures ReadsDocument(c, e, v) && Delimited(c, e) ==>
      ParseDocument(c, false) == if Nest(v) <= 1000 then Ok(v, e) else Fail
  {
    hide ParseValue, SkipBlanks, Blanks, Reads, At, Delimited, Nest;
    var start := if |c| > 4 && At(c, 0, BOM) then 3 else 0;
    if ParseDocument(c, false) == Ok(v, e) {
      SkippedBlanks(c, start);
      ValueSound(c, SkipBlanks(c, start), 0);
    }
    if ReadsDocument(c, e, v) && Delimited(c, e) {
      var a: nat :| Blanks(c, start, a) && Reads(c, a, e, v);
      ReadsStart(c, a, e, v);
      SkipBlanksAt(c, start, a);
      ValueComplete(c, a, e, v, 0);
    }
  }

  /** With require_null_terminated only blanks may follow, of which the last byte of the buffer is a NUL. */
  lemma TerminatedExactly(c: bytes)
    ensures
      var r := ParseDocument(c, false);
      ParseDocument(c, true).Ok? <==> r.Ok? && r.next < |c| && Blanks(c, r.next, |c|) && c[|c| - 1] == NUL
    ensures ParseDocument(c, true).Ok? ==> ParseDocument(c, true).value == ParseDocument(c, false).value
  {
    hide ParseValue, At;
    var r := ParseDocument(c, false);
    if r.Ok? {
      SkippedBlanks(c, r.next);
      var e := SkipBlanks(c, r.next);
      if Blanks(c, r.next, |c|) && r.next < |c| { AllBlanks(c, r.next); }
    }
  }

  lemma {:induction false} AllBlanks(c: bytes, o: nat)
    requires Blanks(c, o, |c|)
    ensures BlankEnd(c, o) == |c|
    decreases |c| - o
  {
    if o < |c| { AllBlanks(c, o + 1); }
  }
}
