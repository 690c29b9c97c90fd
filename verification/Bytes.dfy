/** Bytes, the characters the JSON code names, and the C string comparisons it uses. */
module Bytes {

  type byte = x: int | 0 <= x < 0x100
  type bytes = seq<byte>

  const NUL: byte := 0
  const BACKSPACE: byte := 8
  const TAB: byte := 9
  const LINE_FEED: byte := 10
  const FORM_FEED: byte := 12
  const CARRIAGE_RETURN: byte := 13
  const SPACE: byte := 32
  const QUOTE: byte := 34
  const PLUS: byte := 43
  const COMMA: byte := 44
  const MINUS: byte := 45
  const DOT: byte := 46
  const SLASH: byte := 47
  const ZERO: byte := 48
  const ONE: byte := 49
  const NINE: byte := 57
  const COLON: byte := 58
  const UPPER_A: byte := 65
  const UPPER_E: byte := 69
  const UPPER_F: byte := 70
  const UPPER_Z: byte := 90
  const LBRACKET: byte := 91
  const BACKSLASH: byte := 92
  const RBRACKET: byte := 93
  const LOWER_A: byte := 97
  const LOWER_B: byte := 98
  const LOWER_E: byte := 101
  const LOWER_F: byte := 102
  const LOWER_N: byte := 110
  const LOWER_R: byte := 114
  const LOWER_T: byte := 116
  const LOWER_U: byte := 117
  const LBRACE: byte := 123
  const RBRACE: byte := 125
  const TILDE: byte := 126

  const NULL_TEXT: bytes := [110, 117, 108, 108]
  const FALSE_TEXT: bytes := [102, 97, 108, 115, 101]
  const TRUE_TEXT: bytes := [116, 114, 117, 101]

  predicate IsDigit(b: byte) { ZERO <= b <= NINE }

  /** A byte string that a C string can hold. */
  predicate NulFree(s: bytes) { NUL !in s }

  /** The part of a buffer that C code sees as a string: everything before the first NUL. */
  function UpToNul(s: bytes): (r: bytes)
    ensures NulFree(r) && r <= s
    ensures |r| < |s| ==> s[|r|] == NUL
    ensures NulFree(s) ==> r == s
  {
    if s == [] || s[0] == NUL then [] else [s[0]] + UpToNul(s[1..])
  }

  /** `text` stands in `content` at `offset`. */
  predicate At(content: bytes, offset: nat, text: bytes) {
    offset + |text| <= |content| && content[offset..offset + |text|] == text
  }

  lemma AtSplit(content: bytes, offset: nat, a: bytes, b: bytes)
    requires At(content, offset, a + b)
    ensures At(content, offset, a) && At(content, offset + |a|, b)
  {
    var w := content[offset..offset + |a| + |b|];
    assert w == a + b;
    assert w[..|a|] == a && w[|a|..] == b;
    assert content[offset..offset + |a|] == w[..|a|];
    assert content[offset + |a|..offset + |a| + |b|] == w[|a|..];
  }

  lemma AtHead(content: bytes, offset: nat, h: byte, rest: bytes)
    requires At(content, offset, [h] + rest)
    ensures offset < |content| && content[offset] == h && At(content, offset + 1, rest)
  {
    AtSplit(content, offset, [h], rest);
    assert content[offset..offset + 1][0] == h;
  }

  // ----- tolower and string order -----

  /** The same letter, or byte, if case is not regarded: 65 to 90 are "A" to "Z", and 97 to 122 are "a" to "z". */
  predicate SameLetter(x: byte, y: byte) {
    x == y || (65 <= x <= 90 && y == x + 32) || (65 <= y <= 90 && x == y + 32)
  }

  function ToLower(b: byte): (r: byte)
    ensures SameLetter(b, r) && !(65 <= r <= 90)
  {
    if UPPER_A <= b <= UPPER_Z then b + 32 else b
  }

  function Lower(s: bytes): (r: bytes)
    ensures |r| == |s| && forall i :: 0 <= i < |s| ==> r[i] == ToLower(s[i])
  {
    seq(|s|, i requires 0 <= i < |s| => ToLower(s[i]))
  }

  /** The form in which two keys are compared: as they are, or in lower case. */
  function Norm(s: bytes, caseSensitive: bool): (r: bytes)
    ensures |r| == |s|
  {
    if caseSensitive then s else Lower(s)
  }

  /** The same name, byte by byte. */
  predicate SameName(a: bytes, b: bytes, caseSensitive: bool) {
    |a| == |b| && forall i :: 0 <= i < |a| ==> if caseSensitive then a[i] == b[i] else SameLetter(a[i], b[i])
  }

  /** Exactly the same names have the same form. */
  lemma NormExactly(a: bytes, b: bytes, caseSensitive: bool)
    ensures Norm(a, caseSensitive) == Norm(b, caseSensitive) <==> SameName(a, b, caseSensitive)
  {
    if caseSensitive {
      assert SameName(a, b, true) ==> a == b;
    } else {
      assert SameName(a, b, false) ==> Lower(a) == Lower(b);
      if Lower(a) == Lower(b) {
        forall i | 0 <= i < |a| ensures SameLetter(a[i], b[i]) {
          assert Lower(a)[i] == Lower(b)[i];
        }
      }
    }
  }

  predicate IsLowerCase(s: bytes) {
    forall i :: 0 <= i < |s| ==> !(UPPER_A <= s[i] <= UPPER_Z)
  }

  lemma LowerCaseNorm(s: bytes, caseSensitive: bool)
    requires IsLowerCase(s)
    ensures Norm(s, caseSensitive) == s
  {
    assert Lower(s) == s;
  }

  /** Strict lexicographic order on unsigned bytes: strcmp(a, b) < 0. */
  predicate Less(a: bytes, b: bytes) {
    b != [] && (a == [] || a[0] < b[0] || (a[0] == b[0] && Less(a[1..], b[1..])))
  }

  lemma {:induction false} LessIrreflexive(a: bytes)
    ensures !Less(a, a)
  {
    if a != [] {
      LessIrreflexive(a[1..]);
    }
  }

  lemma {:induction false} LessTrichotomy(a: bytes, b: bytes)
    ensures !(Less(a, b) && Less(b, a))
    ensures Less(a, b) || Less(b, a) || a == b
    ensures !Less(a, a)
    decreases |a| + |b|
  {
    if a != [] {
      LessIrreflexive(a);
      if b != [] && a[0] == b[0] {
        LessTrichotomy(a[1..], b[1..]);
        if a[1..] == b[1..] {
          assert a == [a[0]] + a[1..] == [b[0]] + b[1..] == b;
        }
      }
    }
  }

  lemma {:induction false} LessTransitive(a: bytes, b: bytes, c: bytes)
    requires Less(a, b) && Less(b, c)
    ensures Less(a, c)
    decreases |a|
  {
    if a != [] && a[0] == b[0] == c[0] {
      LessTransitive(a[1..], b[1..], c[1..]);
    }
  }

  /** compare_strings / case_insensitive_strcmp on two non-NULL strings, as a sign. */
  function Compare(a: bytes, b: bytes, caseSensitive: bool): int {
    if Less(Norm(a, caseSensitive), Norm(b, caseSensitive)) then -1
    else if Norm(a, caseSensitive) == Norm(b, caseSensitive) then 0
    else 1
  }

  /**
   * The order of two names is that of the first bytes in which they differ, taken as unsigned numbers and in lower case
   * if case is not regarded; a name comes before those that go on.
   */
  lemma CompareExactly(a: bytes, b: bytes, caseSensitive: bool)
    ensures Compare(a, b, caseSensitive) == 0 <==> SameName(a, b, caseSensitive)
    ensures Compare(a, b, caseSensitive) < 0 <==> exists k :: 0 <= k <= |a| && ComesFirst(a, b, k, caseSensitive)
  {
    NormExactly(a, b, caseSensitive);
    var x, y := Norm(a, caseSensitive), Norm(b, caseSensitive);
    if Less(x, y) {
      var k := LessAt(x, y);
      assert x[..k] == y[..k] && x[..k] == Norm(a[..k], caseSensitive) && y[..k] == Norm(b[..k], caseSensitive);
      NormExactly(a[..k], b[..k], caseSensitive);
      assert ComesFirst(a, b, k, caseSensitive);
    }
    if k :| 0 <= k <= |a| && ComesFirst(a, b, k, caseSensitive) {
      NormExactly(a[..k], b[..k], caseSensitive);
      assert x[..k] == Norm(a[..k], caseSensitive) && y[..k] == Norm(b[..k], caseSensitive);
      LessFrom(x, y, k);
    }
    LessTrichotomy(x, y);
  }

  /** Up to `k` the names are the same, and there the first one ends, or has the smaller byte. */
  predicate ComesFirst(a: bytes, b: bytes, k: nat, caseSensitive: bool)
    requires k <= |a|
  {
    && k < |b| && SameName(a[..k], b[..k], caseSensitive)
    && (k == |a| || if caseSensitive then a[k] < b[k] else ToLower(a[k]) < ToLower(b[k]))
  }

  lemma {:induction false} LessAt(a: bytes, b: bytes) returns (k: nat)
    requires Less(a, b)
    ensures k <= |a| && k < |b| && a[..k] == b[..k] && (k == |a| || a[k] < b[k])
  {
    if a == [] || a[0] < b[0] {
      k := 0;
    } else {
      var j := LessAt(a[1..], b[1..]);
      k := j + 1;
      assert a[..k] == [a[0]] + a[1..][..j] && b[..k] == [b[0]] + b[1..][..j];
    }
  }

  lemma {:induction false} LessFrom(a: bytes, b: bytes, k: nat)
    requires k <= |a| && k < |b| && a[..k] == b[..k] && (k == |a| || a[k] < b[k])
    ensures Less(a, b)
    decreases k
  {
    if k > 0 {
      assert a[..k][0] == a[0] && b[..k][0] == b[0];
      assert a[1..][..k - 1] == a[..k][1..] && b[1..][..k - 1] == b[..k][1..];
      LessFrom(a[1..], b[1..], k - 1);
    }
  }

  /** The position of the first key that is equal to `name`, or the number of keys. */
  function IndexOf(keys: seq<bytes>, name: bytes, caseSensitive: bool): (k: nat)
    ensures k <= |keys|
    ensures k < |keys| ==> Compare(name, keys[k], caseSensitive) == 0
    ensures forall i :: 0 <= i < k ==> Compare(name, keys[i], caseSensitive) != 0
  {
    if keys == [] || Compare(name, keys[0], caseSensitive) == 0 then 0
    else 1 + IndexOf(keys[1..], name, caseSensitive)
  }

  /** `k` is the position of the first key that is the same name, or the number of keys when none is. */
  predicate FirstNamed(keys: seq<bytes>, name: bytes, caseSensitive: bool, k: nat) {
    && k <= |keys| && (k < |keys| ==> SameName(name, keys[k], caseSensitive))
    && forall i :: 0 <= i < k ==> !SameName(name, keys[i], caseSensitive)
  }

  lemma IndexOfExactly(keys: seq<bytes>, name: bytes, caseSensitive: bool)
    ensures FirstNamed(keys, name, caseSensitive, IndexOf(keys, name, caseSensitive))
  {
    hide IndexOf, Compare, SameName;
    forall i | 0 <= i < |keys| {
      CompareExactly(name, keys[i], caseSensitive);
    }
  }
}
