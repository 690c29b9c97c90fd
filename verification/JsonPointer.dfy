/** JSON Pointer: finding the pointer of a node, and the node of a pointer (cJSON_Utils.c). */
module JsonPointer {
  import opened Bytes
  import opened JsonValue
  import opened JsonText
  import opened JsonParser
  import opened JsonRoundTrip
  import opened Options

  /** One more than the largest size_t. */
  const SIZE: nat := 0x1_0000_0000_0000_0000

  datatype Kind = Leaf | ArrayKind | ObjectKind

  /** A cJSON node; `id` stands for its address. */
  datatype Node = Node(id: int, kind: Kind, key: bytes, children: seq<Node>)

  // ----- reference tokens, after sections 3 and 4 of RFC 6901 -----

  /** The text up to the next slash. */
  function Token(p: bytes): (t: bytes)
    ensures |t| <= |p| && t == p[..|t|] && SLASH !in t
    ensures |t| < |p| ==> p[|t|] == SLASH
  {
    if p == [] || p[0] == SLASH then [] else [p[0]] + Token(p[1..])
  }

  /** What a token stands for: ~0 is ~ and ~1 is /, and ~ cannot stand for itself. */
  function Unescape(t: bytes): Option<bytes> {
    if t == [] then Some([])
    else if t[0] == TILDE then
      if |t| < 2 || (t[1] != ZERO && t[1] != ONE) then None
      else Cons(if t[1] == ZERO then TILDE else SLASH, Unescape(t[2..]))
    else Cons(t[0], Unescape(t[1..]))
  }

  function Cons(b: byte, rest: Option<bytes>): Option<bytes> {
    if rest.None? then None else Some([b] + rest.value)
  }

  /** The token stands for this name. */
  predicate Names(t: bytes, name: bytes, caseSensitive: bool) {
    var u := Unescape(t);
    u.Some? && Norm(u.value, caseSensitive) == Norm(name, caseSensitive)
  }

  /** Section 3 of RFC 6901: "~0" stands for "~" and "~1" for "/", and "~" for nothing else. */
  lemma TildeEscapes(b: byte)
    ensures Unescape([126, b]) == if b == 48 then Some([126]) else if b == 49 then Some([47]) else None
    ensures EncodeByte(126) == [126, 48] && EncodeByte(47) == [126, 49] && (b != 126 && b != 47 ==> EncodeByte(b) == [b])
  {
    assert [126, b][2..] == [] && Unescape([]) == Some([]);
    assert [126] + [] == [126] && [47] + [] == [47];
  }

  /** This is so when the token, unescaped, is the same name. */
  lemma NamesExactly(t: bytes, name: bytes, caseSensitive: bool)
    ensures Names(t, name, caseSensitive) <==> Unescape(t).Some? && SameName(Unescape(t).value, name, caseSensitive)
  {
    if Unescape(t).Some? { NormExactly(Unescape(t).value, name, caseSensitive); }
  }

  /** array-index of RFC 6901: no leading zeros, digits only. */
  predicate IsIndex(t: bytes) {
    t == [ZERO] || (t != [] && t[0] != ZERO && forall i :: 0 <= i < |t| ==> IsDigit(t[i]))
  }

  // ----- encoding -----

  function Encode(name: bytes): bytes {
    if name == [] then [] else EncodeByte(name[0]) + Encode(name[1..])
  }

  function EncodeByte(b: byte): (t: bytes)
    ensures |t| == if b == SLASH || b == TILDE then 2 else 1
  {
    if b == SLASH then [TILDE, ONE] else if b == TILDE then [TILDE, ZERO] else [b]
  }

  lemma {:induction false} EncodeAppend(s: bytes, b: byte)
    ensures Encode(s + [b]) == Encode(s) + EncodeByte(b)
  {
    if s == [] {
      assert [] + [b] == [b];
    } else {
      hide EncodeByte;
      EncodeAppend(s[1..], b);
      assert (s + [b])[1..] == s[1..] + [b] && (s + [b])[0] == s[0];
      assert EncodeByte(s[0]) + (Encode(s[1..]) + EncodeByte(b)) == EncodeByte(s[0]) + Encode(s[1..]) + EncodeByte(b);
    }
  }

  /** Encoding is undone by the decoding of the RFC, and leaves no slash. */
  lemma {:induction false} EncodeDecodes(name: bytes)
    ensures Unescape(Encode(name)) == Some(name) && SLASH !in Encode(name)
    ensures NulFree(name) ==> NulFree(Encode(name))
  {
    if name != [] {
      var rest := Encode(name[1..]);
      EncodeDecodes(name[1..]);
      assert [name[0]] + name[1..] == name;
      if name[0] == SLASH || name[0] == TILDE {
        assert Encode(name)[2..] == rest;
      } else {
        assert Encode(name)[1..] == rest;
      }
    }
  }

  /** pointer_encoded_length. */
  method PointerEncodedLength(s: bytes) returns (length: nat)
    ensures length == |Encode(s)|
  {
    length := 0;
    for i := 0 to |s|
      invariant length == |Encode(s[..i])|
    {
      EncodeAppend(s[..i], s[i]);
      assert s[..i + 1] == s[..i] + [s[i]];
      if s[i] == TILDE || s[i] == SLASH { length := length + 1; }
      length := length + 1;
    }
    assert s[..|s|] == s;
  }

  method WriteEncoded(destination: array<byte>, at: nat, b: byte) returns (next: nat)
    requires at + |EncodeByte(b)| < destination.Length
    modifies destination
    ensures next == at + |EncodeByte(b)| && destination[..next] == old(destination[..at]) + EncodeByte(b)
  {
    next := at;
    if b == SLASH {
      destination[next], destination[next + 1] := TILDE, ONE;
      next := next + 1;
    } else if b == TILDE {
      destination[next], destination[next + 1] := TILDE, ZERO;
      next := next + 1;
    } else {
      destination[next] := b;
    }
    next := next + 1;
  }

  /** encode_string_as_pointer: `destination` from `at` on holds the encoded name and a terminator. */
  method EncodeStringAsPointer(destination: array<byte>, at: nat, source: bytes)
    requires at + |Encode(source)| < destination.Length
    modifies destination
    ensures destination[..at + |Encode(source)|] == old(destination[..at]) + Encode(source)
    ensures destination[at + |Encode(source)|] == NUL
  {
    hide EncodeByte, Encode;
    ghost var before := destination[..at];
    var d := at;
    EncodeNothing();
    assert source[0..] == source;
    for i := 0 to |source|
      invariant d + |Encode(source[i..])| == at + |Encode(source)|
      invariant at <= d && destination[..d] == before + Encode(source[..i])
    {
      EncodeSplit(source, i);
      ghost var done := Encode(source[..i]);
      d := WriteEncoded(destination, d, source[i]);
      assert before + done + EncodeByte(source[i]) == before + (done + EncodeByte(source[i]));
    }
    assert source[..|source|] == source && source[|source|..] == [];
    destination[d] := NUL;
  }

  lemma EncodeNothing()
    ensures Encode([]) == []
  {
  }

  lemma EncodeSplit(source: bytes, i: nat)
    requires i < |source|
    ensures Encode(source[..i + 1]) == Encode(source[..i]) + EncodeByte(source[i])
    ensures Encode(source[i..]) == EncodeByte(source[i]) + Encode(source[i + 1..])
  {
    EncodeAppend(source[..i], source[i]);
    assert source[..i + 1] == source[..i] + [source[i]];
  }

  // ----- comparing a name with a token -----

  /** The byte at `i`, or the terminator. */
  function ByteAt(s: bytes, i: nat): byte { if i < |s| then s[i] else NUL }

  /** A name and a token that both start with a byte. */
  lemma NamesStep(t: bytes, name: bytes, caseSensitive: bool)
    requires t != [] && name != []
    ensures
      if t[0] == TILDE then
        Names(t, name, caseSensitive) <==>
          && |t| >= 2 && ((t[1] == ZERO && name[0] == TILDE) || (t[1] == ONE && name[0] == SLASH))
          && Names(t[2..], name[1..], caseSensitive)
      else
        Names(t, name, caseSensitive) <==>
          Norm([name[0]], caseSensitive) == Norm([t[0]], caseSensitive) && Names(t[1..], name[1..], caseSensitive)
  {
    if t[0] != TILDE {
      if Unescape(t[1..]).Some? { NormCons(t[0], Unescape(t[1..]).value, name, caseSensitive); }
    } else if |t| >= 2 && (t[1] == ZERO || t[1] == ONE) {
      var u := if t[1] == ZERO then TILDE else SLASH;
      if Unescape(t[2..]).Some? { NormCons(u, Unescape(t[2..]).value, name, caseSensitive); }
      assert Norm([name[0]], caseSensitive) == Norm([u], caseSensitive) <==> name[0] == u by {
        assert Norm([name[0]], caseSensitive)[0] == if caseSensitive then name[0] else ToLower(name[0]);
        assert Norm([u], caseSensitive) == [u];
      }
    }
  }

  lemma NormConcat(a: bytes, b: bytes, caseSensitive: bool)
    ensures Norm(a + b, caseSensitive) == Norm(a, caseSensitive) + Norm(b, caseSensitive)
  {
    if !caseSensitive { assert Lower(a + b) == Lower(a) + Lower(b); }
  }

  lemma NormCons(b: byte, rest: bytes, name: bytes, caseSensitive: bool)
    requires name != []
    ensures Norm([b] + rest, caseSensitive) == Norm(name, caseSensitive) <==>
      Norm([name[0]], caseSensitive) == Norm([b], caseSensitive)
      && Norm(rest, caseSensitive) == Norm(name[1..], caseSensitive)
  {
    hide Norm;
    NormConcat([b], rest, caseSensitive);
    NormConcat([name[0]], name[1..], caseSensitive);
    assert name == [name[0]] + name[1..];
    var x, y := Norm([b] + rest, caseSensitive), Norm(name, caseSensitive);
    assert x[..1] == Norm([b], caseSensitive) && x[1..] == Norm(rest, caseSensitive);
    assert y[..1] == Norm([name[0]], caseSensitive) && y[1..] == Norm(name[1..], caseSensitive);
  }

  /** Nothing but the empty token stands for the empty name. */
  lemma NamesNothing(t: bytes, name: bytes, caseSensitive: bool)
    requires t == [] || name == []
    ensures Names(t, name, caseSensitive) <==> t == [] && name == []
  {
  }

  lemma TokenStep(p: bytes, k: nat)
    requires k <= |Token(p)|
    ensures Token(p[k..]) == Token(p)[k..]
  {
    if k > 0 {
      TokenStep(p[1..], k - 1);
      assert p[1..][k - 1..] == p[k..];
      assert Token(p)[1..] == Token(p[1..]);
    }
  }

  /** compare_pointers: whether the first token of `pointer` stands for `name`. */
  method ComparePointers(name: bytes, pointer: bytes, caseSensitive: bool) returns (equal: bool)
    requires NulFree(name) && NulFree(pointer)
    ensures equal <==> Names(Token(pointer), name, caseSensitive)
    ensures equal <==>
      var u := Unescape(Token(pointer)); u.Some? && SameName(u.value, name, caseSensitive)
  {
    NamesExactly(Token(pointer), name, caseSensitive);
    hide Names, Token, Unescape, Norm, SameName;
    var i, j := 0, 0;
    ghost var t := Token(pointer);
    assert t[0..] == t && name[0..] == name;
    while ByteAt(name, i) != NUL && ByteAt(pointer, j) != NUL && ByteAt(pointer, j) != SLASH
      invariant i <= |name| && j <= |t|
      invariant Names(t, name, caseSensitive) <==> Names(t[j..], name[i..], caseSensitive)
      decreases |name| - i
    {
      assert j < |t|;
      NamesStep(t[j..], name[i..], caseSensitive);
      if pointer[j] == TILDE {
        if (ByteAt(pointer, j + 1) != ZERO || name[i] != TILDE) && (ByteAt(pointer, j + 1) != ONE || name[i] != SLASH) {
          return false;
        }
        assert j + 1 < |t| && t[j..][2..] == t[j + 2..];
        j := j + 1;
      } else if Norm([name[i]], caseSensitive) != Norm([pointer[j]], caseSensitive) {
        return false;
      }
      assert t[j..][1..] == t[j + 1..] && name[i..][1..] == name[i + 1..];
      i, j := i + 1, j + 1;
    }
    NamesNothing(t[j..], name[i..], caseSensitive);
    equal := (ByteAt(pointer, j) != NUL && ByteAt(pointer, j) != SLASH) == (ByteAt(name, i) != NUL);
  }

  // ----- array indices -----

  function Accumulated(t: bytes): nat
    requires forall i :: 0 <= i < |t| ==> t[i] >= ZERO
  {
    if t == [] then 0 else 10 * Accumulated(t[..|t| - 1]) + (t[|t| - 1] - ZERO)
  }

  /** The index that a token is taken for; only its first byte is tested against '9'. */
  function DecodeIndex(t: bytes): Option<nat> {
    if |t| >= 2 && t[0] == ZERO then None
    else if t == [] then Some(0)
    else if t[0] <= NINE && forall i :: 0 <= i < |t| ==> t[i] >= ZERO then Some(Accumulated(t) % SIZE)
    else None
  }

  /** decode_array_index_from_pointer. */
  method DecodeArrayIndex(pointer: bytes) returns (ok: bool, index: nat)
    requires NulFree(pointer)
    ensures ok <==> DecodeIndex(Token(pointer)).Some?
    ensures ok ==> index == DecodeIndex(Token(pointer)).value
  {
    ghost var t := Token(pointer);
    index := 0;
    if ByteAt(pointer, 0) == ZERO && ByteAt(pointer, 1) != NUL && ByteAt(pointer, 1) != SLASH {
      assert |t| >= 2;
      return false, 0;
    }
    var position := 0;
    while ByteAt(pointer, position) >= ZERO && ByteAt(pointer, 0) <= NINE
      invariant position <= |t| && (position > 0 ==> t[0] <= NINE)
      invariant forall i :: 0 <= i < position ==> t[i] >= ZERO
      invariant index == Accumulated(t[..position]) % SIZE
      decreases |t| - position
    {
      assert position < |t|;
      assert t[..position + 1][..position] == t[..position];
      RemainderStep(Accumulated(t[..position]), pointer[position] - ZERO);
      index := (10 * index + (pointer[position] - ZERO)) % SIZE;
      position := position + 1;
    }
    assert t[..|t|] == t;
    ok := ByteAt(pointer, position) == NUL || ByteAt(pointer, position) == SLASH;
  }

  lemma RemainderStep(x: nat, d: nat)
    ensures (10 * (x % SIZE) + d) % SIZE == (10 * x + d) % SIZE
  {
    var q := x / SIZE;
    assert 10 * x + d == (10 * (x % SIZE) + d) + (10 * q) * SIZE;
    RemainderPlus(10 * (x % SIZE) + d, 10 * q);
  }

  lemma {:induction false} RemainderPlus(y: nat, k: nat)
    ensures (y + k * SIZE) % SIZE == y % SIZE
  {
    if k > 0 {
      RemainderPlus(y, k - 1);
      assert y + k * SIZE == y + (k - 1) * SIZE + SIZE;
    }
  }

  /** Tokens that are taken for an index though they are none: the empty one, and digits followed by something above '9'. */
  predicate LooseIndex(t: bytes) {
    || t == []
    || (ONE <= t[0] <= NINE && (forall i :: 0 <= i < |t| ==> t[i] >= ZERO) && exists i :: 0 <= i < |t| && t[i] > NINE)
  }

  lemma {:induction false} AccumulatedDigits(t: bytes)
    requires forall i :: 0 <= i < |t| ==> ZERO <= t[i] <= NINE && IsDigit(t[i])
    ensures Accumulated(t) == DigitsValue(t)
  {
    if t != [] { AccumulatedDigits(t[..|t| - 1]); }
  }

  /** Exactly the indices of the RFC and the loose ones are decoded, and the former to their value. */
  lemma IndexExact(t: bytes)
    ensures DecodeIndex(t).Some? <==> IsIndex(t) || LooseIndex(t)
    ensures !(IsIndex(t) && LooseIndex(t))
    ensures IsIndex(t) ==> (forall i :: 0 <= i < |t| ==> IsDigit(t[i])) && DecodeIndex(t).value == DigitsValue(t) % SIZE
  {
    if IsIndex(t) { AccumulatedDigits(t); }
  }

  // ----- resolving a pointer -----

  /** The position of the first child whose name the token stands for, or the number of children. */
  function FindChild(children: seq<Node>, t: bytes, caseSensitive: bool): (i: nat)
    ensures i <= |children|
    ensures i < |children| ==> Names(t, children[i].key, caseSensitive)
    ensures forall j :: 0 <= j < i ==> !Names(t, children[j].key, caseSensitive)
  {
    if children == [] || Names(t, children[0].key, caseSensitive) then 0
    else 1 + FindChild(children[1..], t, caseSensitive)
  }

  function Item(children: seq<Node>, i: nat): Option<Node> {
    if i < |children| then Some(children[i]) else None
  }

  function Step(node: Node, t: bytes, caseSensitive: bool): (r: Option<Node>)
  {
    match node.kind
    case ArrayKind =>
      var index := DecodeIndex(t);
      if index.None? then None else Item(node.children, index.value)
    case ObjectKind => Item(node.children, FindChild(node.children, t, caseSensitive))
    case Leaf => None
  }

  /** What get_item_from_pointer finds. */
  function Resolve(node: Node, p: bytes, caseSensitive: bool): Option<Node>
    decreases |p|
  {
    if p == [] || p[0] != SLASH then Some(node)
    else
      var t := Token(p[1..]);
      var child := Step(node, t, caseSensitive);
      if child.None? then None else Resolve(child.value, p[1 + |t|..], caseSensitive)
  }

  method GetChild(children: seq<Node>, pointer: bytes, caseSensitive: bool) returns (r: Option<Node>)
    requires NulFree(pointer) && forall i :: 0 <= i < |children| ==> NulFree(children[i].key)
    ensures r == Item(children, FindChild(children, Token(pointer), caseSensitive))
  {
    hide Token, Names;
    ghost var t := Token(pointer);
    for i := 0 to |children|
      invariant forall j :: 0 <= j < i ==> !Names(t, children[j].key, caseSensitive)
    {
      var equal := ComparePointers(children[i].key, pointer, caseSensitive);
      if equal { return Some(children[i]); }
    }
    return None;
  }

  predicate CStrings(node: Node) {
    forall i :: 0 <= i < |node.children| ==> NulFree(node.children[i].key) && CStrings(node.children[i])
  }

  method StepInto(node: Node, pointer: bytes, caseSensitive: bool) returns (child: Option<Node>)
    requires NulFree(pointer) && CStrings(node)
    ensures child == Step(node, Token(pointer), caseSensitive)
  {
    if node.kind == ArrayKind {
      var ok, index := DecodeArrayIndex(pointer);
      child := if ok then Item(node.children, index) else None;
    } else if node.kind == ObjectKind {
      child := GetChild(node.children, pointer, caseSensitive);
    } else {
      child := None;
    }
  }

  /** Skips to the next path token or the end of the string. */
  method SkipToken(pointer: bytes, start: nat) returns (p: nat)
    requires start <= |pointer| && NulFree(pointer)
    ensures p == start + |Token(pointer[start..])|
  {
    ghost var t := Token(pointer[start..]);
    p := start;
    while ByteAt(pointer, p) != NUL && ByteAt(pointer, p) != SLASH
      invariant start <= p <= start + |t|
      decreases |pointer| - p
    {
      p := p + 1;
    }
  }

  lemma StepCStrings(node: Node, t: bytes, caseSensitive: bool)
    requires CStrings(node) && Step(node, t, caseSensitive).Some?
    ensures CStrings(Step(node, t, caseSensitive).value)
  {
  }

  lemma ResolveUnfold(node: Node, p: bytes, caseSensitive: bool)
    ensures Resolve(node, p, caseSensitive) ==
      if p == [] || p[0] != SLASH then Some(node)
      else
        var t := Token(p[1..]);
        var child := Step(node, t, caseSensitive);
        if child.None? then None else Resolve(child.value, p[1 + |t|..], caseSensitive)
  {
  }

  /** get_item_from_pointer. */
  method GetItemFromPointer(root: Node, pointer: bytes, caseSensitive: bool) returns (r: Option<Node>)
    requires NulFree(pointer) && CStrings(root)
    ensures r == Resolve(root, pointer, caseSensitive)
  {
    hide Resolve, Step, Token, CStrings;
    var current, p := Some(root), 0;
    assert pointer[0..] == pointer;
    while ByteAt(pointer, p) == SLASH && current.Some?
      invariant p <= |pointer| && (current.Some? ==> CStrings(current.value))
      invariant Resolve(root, pointer, caseSensitive) ==
        if current.None? then None else Resolve(current.value, pointer[p..], caseSensitive)
      decreases |pointer| - p
    {
      ghost var was, from := current.value, p;
      ResolveUnfold(was, pointer[from..], caseSensitive);
      assert pointer[from..][1..] == pointer[from + 1..];
      p := p + 1;
      current := StepInto(current.value, pointer[p..], caseSensitive);
      ghost var t := Token(pointer[p..]);
      if current.Some? { StepCStrings(was, t, caseSensitive); }
      p := SkipToken(pointer, p);
      assert pointer[from..][1 + |t|..] == pointer[p..];
    }
    if current.Some? { ResolveUnfold(current.value, pointer[p..], caseSensitive); }
    r := current;
  }

  // ----- the evaluation of section 4 of RFC 6901 -----

  function RfcStep(node: Node, t: bytes): Option<Node> {
    match node.kind
    case ArrayKind => if IsIndex(t) then Item(node.children, DigitsValue(t)) else None
    case ObjectKind => Item(node.children, FindChild(node.children, t, true))
    case Leaf => None
  }

  function RfcResolve(node: Node, p: bytes): Option<Node>
    decreases |p|
  {
    if p == [] then Some(node)
    else if p[0] != SLASH then None
    else
      var t := Token(p[1..]);
      var child := RfcStep(node, t);
      if child.None? then None else RfcResolve(child.value, p[1 + |t|..])
  }

  /** The position of the child that a token leads to, or the number of children. */
  function ChildAt(node: Node, t: bytes): (i: nat)
    ensures i <= |node.children|
  {
    match node.kind
    case ArrayKind =>
      var index := DecodeIndex(t);
      if index.Some? && index.value < |node.children| then index.value else |node.children|
    case ObjectKind => FindChild(node.children, t, true)
    case Leaf => |node.children|
  }

  /** Every token leads to a child, up to the end of the text or to a part of it that does not start with a slash. */
  predicate Leads(node: Node, p: bytes)
    decreases |p|
  {
    p == [] || p[0] != SLASH ||
      var t := Token(p[1..]);
      var i := ChildAt(node, t);
      i < |node.children| && Leads(node.children[i], p[1 + |t|..])
  }

  /** A token that is read as an index in the code's own way. */
  predicate OwnIndex(t: bytes) { LooseIndex(t) || (IsIndex(t) && DigitsValue(t) >= SIZE) }

  /**
   * A node is found that the RFC does not know: the text does not start with a slash, or a token that an array takes for
   * an index in its own way leads to a child, and the rest of the text leads on; or this is so further down.
   */
  predicate Deviates(node: Node, p: bytes)
    decreases |p|
  {
    p != [] && (p[0] != SLASH ||
      var t := Token(p[1..]);
      var i := ChildAt(node, t);
      i < |node.children|
      && if node.kind == ArrayKind && OwnIndex(t) then Leads(node.children[i], p[1 + |t|..])
         else Deviates(node.children[i], p[1 + |t|..]))
  }

  /** Fewer children than a size_t can count. */
  predicate Countable(node: Node) {
    |node.children| <= SIZE && forall i :: 0 <= i < |node.children| ==> Countable(node.children[i])
  }

  lemma StepAgrees(node: Node, t: bytes)
    requires Countable(node)
    ensures Step(node, t, true) == Item(node.children, ChildAt(node, t))
    ensures RfcStep(node, t) == if node.kind == ArrayKind && OwnIndex(t) then None else Step(node, t, true)
  {
    hide IsIndex, LooseIndex, DecodeIndex, FindChild, DigitsValue, Countable;
    if node.kind == ArrayKind {
      IndexExact(t);
      ChildrenCount(node);
      if IsIndex(t) && DigitsValue(t) < SIZE { assert DigitsValue(t) % SIZE == DigitsValue(t); }
    }
  }

  lemma ChildrenCount(node: Node)
    requires Countable(node)
    ensures |node.children| <= SIZE
  {
  }

  /** Exactly the texts that lead on find something. */
  lemma {:induction false} FoundExactly(node: Node, p: bytes)
    requires Countable(node)
    ensures Resolve(node, p, true).Some? <==> Leads(node, p)
    decreases |p|
  {
    if p != [] && p[0] == SLASH {
      var t := Token(p[1..]);
      StepAgrees(node, t);
      var i := ChildAt(node, t);
      if i < |node.children| { FoundExactly(node.children[i], p[1 + |t|..]); }
    }
  }

  /** The code finds what the RFC says, exactly unless the pointer deviates; then it finds a node where the RFC has none. */
  lemma {:induction false} RfcAgrees(node: Node, p: bytes)
    requires Countable(node)
    ensures Resolve(node, p, true) == RfcResolve(node, p) <==> !Deviates(node, p)
    ensures Deviates(node, p) ==> Resolve(node, p, true).Some? && RfcResolve(node, p).None?
    decreases |p|
  {
    if p != [] && p[0] == SLASH {
      var t := Token(p[1..]);
      StepAgrees(node, t);
      var i := ChildAt(node, t);
      if i < |node.children| {
        var rest := p[1 + |t|..];
        if node.kind == ArrayKind && OwnIndex(t) { FoundExactly(node.children[i], rest); }
        else { RfcAgrees(node.children[i], rest); }
      }
    }
  }

  /** "x" gives the root, and "/" gives the first item of an array; the RFC knows neither. */
  lemma DeviationWitness(node: Node)
    requires node.kind == ArrayKind && node.children != []
    ensures Resolve(node, [LOWER_A + 23], true) == Some(node) && RfcResolve(node, [LOWER_A + 23]) == None
    ensures Resolve(node, [SLASH], true) == Some(node.children[0]) && RfcResolve(node, [SLASH]) == None
  {
    assert [SLASH][1..] == [];
    assert Step(node, [], true) == Some(node.children[0]) && RfcStep(node, []) == None;
  }

  // ----- the pointer of a node -----

  /** cJSONUtils_FindPointerFromObjectTo: the pointer of the first node, in the order of the text, with that address. */
  function FindPointer(node: Node, target: int): Option<bytes>
    decreases node, 0
  {
    if node.id == target then Some([]) else FindAmong(node.kind, node.children, 0, target)
  }

  function FindAmong(kind: Kind, children: seq<Node>, i: nat, target: int): Option<bytes>
    decreases children, 0
  {
    if children == [] then None
    else
      var p := FindPointer(children[0], target);
      if p.None? then FindAmong(kind, children[1..], i + 1, target)
      else if kind == ArrayKind then Some([SLASH] + Decimal(i) + p.value)
      else if kind == ObjectKind then Some([SLASH] + Encode(children[0].key) + p.value)
      else None
  }

  predicate Has(node: Node, target: int) {
    node.id == target || exists i :: 0 <= i < |node.children| && Has(node.children[i], target)
  }

  /** Leaves have no children, and members of an object have different names, under the given case mode. */
  predicate WellFormed(node: Node, caseSensitive: bool) {
    && (node.kind == Leaf ==> node.children == [])
    && (node.kind == ObjectKind ==> UniqueNames(node.children, caseSensitive))
    && forall i :: 0 <= i < |node.children| ==> WellFormed(node.children[i], caseSensitive)
  }

  predicate UniqueNames(children: seq<Node>, caseSensitive: bool) {
    forall i, j :: 0 <= i < j < |children| ==> Norm(children[i].key, caseSensitive) != Norm(children[j].key, caseSensitive)
  }

  lemma {:induction false} TokenOf(t: bytes, rest: bytes)
    requires SLASH !in t && (rest == [] || rest[0] == SLASH)
    ensures Token(t + rest) == t
  {
    if t == [] {
      assert t + rest == rest;
    } else {
      TokenOf(t[1..], rest);
      assert (t + rest)[1..] == t[1..] + rest;
    }
  }

  lemma {:induction false} DecimalIsIndex(n: nat)
    ensures IsIndex(Decimal(n)) && SLASH !in Decimal(n) && NulFree(Decimal(n))
    ensures n > 0 ==> Decimal(n)[0] != ZERO
  {
    if n >= 10 { DecimalIsIndex(n / 10); }
  }

  /** One step along the pointer that was built for child `i`. */
  lemma StepForChild(node: Node, i: nat, t: bytes, caseSensitive: bool)
    requires i < |node.children| && Countable(node) && WellFormed(node, caseSensitive)
    requires (node.kind == ArrayKind && t == Decimal(i)) || (node.kind == ObjectKind && t == Encode(node.children[i].key))
    ensures Step(node, t, caseSensitive) == Some(node.children[i]) && SLASH !in t
    ensures NulFree(node.children[i].key) ==> NulFree(t)
  {
    if node.kind == ArrayKind {
      DecimalIsIndex(i);
      DecimalValue(i);
      IndexExact(t);
    } else {
      EncodeDecodes(node.children[i].key);
      assert Names(t, node.children[i].key, caseSensitive);
    }
  }

  lemma ResolveStep(node: Node, i: nat, t: bytes, rest: bytes, caseSensitive: bool)
    requires i < |node.children| && Countable(node) && WellFormed(node, caseSensitive)
    requires (node.kind == ArrayKind && t == Decimal(i)) || (node.kind == ObjectKind && t == Encode(node.children[i].key))
    requires rest == [] || rest[0] == SLASH
    ensures Resolve(node, [SLASH] + t + rest, caseSensitive) == Resolve(node.children[i], rest, caseSensitive)
  {
    hide *;
    StepForChild(node, i, t, caseSensitive);
    TokenOf(t, rest);
    PointerParts(t, rest);
    ResolveUnfold(node, [SLASH] + t + rest, caseSensitive);
  }

  lemma PointerParts(t: bytes, rest: bytes)
    ensures
      var p := [SLASH] + t + rest;
      p != [] && p[0] == SLASH && p[1..] == t + rest && p[1 + |t|..] == rest
  {
  }

  /** A pointer that was found leads back to the node. */
  ghost predicate LeadsTo(node: Node, p: Option<bytes>, target: int, caseSensitive: bool) {
    p.Some? ==>
      && NulFree(p.value) && (p.value == [] || p.value[0] == SLASH)
      && var r := Resolve(node, p.value, caseSensitive); r.Some? && r.value.id == target
  }

  /**
   * Resolving the pointer that was found for a node gives this node, and every node of the tree is found; in both case
   * modes, if the names are unique in that mode.
   */
  lemma {:induction false} PointerRoundTrip(node: Node, target: int, caseSensitive: bool)
    requires Countable(node) && CStrings(node) && WellFormed(node, caseSensitive)
    ensures FindPointer(node, target).Some? <==> Has(node, target)
    ensures LeadsTo(node, FindPointer(node, target), target, caseSensitive)
    decreases node, |node.children| + 1
  {
    if node.id != target {
      AmongRoundTrip(node, 0, target, caseSensitive);
      assert node.children[0..] == node.children;
    }
  }

  lemma {:induction false} AmongRoundTrip(node: Node, i: nat, target: int, caseSensitive: bool)
    requires i <= |node.children| && Countable(node) && CStrings(node) && WellFormed(node, caseSensitive)
    ensures
      var p := FindAmong(node.kind, node.children[i..], i, target);
      (p.Some? <==> exists k :: i <= k < |node.children| && Has(node.children[k], target))
      && LeadsTo(node, p, target, caseSensitive)
    decreases node, |node.children| - i
  {
    if i < |node.children| {
      var child := node.children[i];
      PointerRoundTrip(child, target, caseSensitive);
      var p := FindPointer(child, target);
      assert node.children[i..][1..] == node.children[i + 1..];
      if p.None? {
        AmongRoundTrip(node, i + 1, target, caseSensitive);
      } else {
        var t := if node.kind == ArrayKind then Decimal(i) else Encode(child.key);
        StepForChild(node, i, t, caseSensitive);
        ResolveStep(node, i, t, p.value, caseSensitive);
      }
    }
  }

  // ----- building the text -----

  /** sprintf or strcat: copies `t` to `at`, with a terminator behind it. */
  method Copy(destination: array<byte>, at: nat, t: bytes)
    requires at + |t| < destination.Length
    modifies destination
    ensures destination[..at + |t|] == old(destination[..at]) + t && destination[at + |t|] == NUL
  {
    for i := 0 to |t|
      invariant destination[..at + i] == old(destination[..at]) + t[..i]
    {
      destination[at + i] := t[i];
    }
    destination[at + |t|] := NUL;
  }

  /** The allocated text for an array item has room for 20 digits, which is enough. */
  method ArrayPointer(index: nat, rest: bytes) returns (full: array<byte>)
    requires index < SIZE
    ensures fresh(full)
    ensures var t := [SLASH] + Decimal(index) + rest; |t| < full.Length && full[..|t|] == t && full[|t|] == NUL
  {
    IndexFits(index);
    var t := [SLASH] + Decimal(index) + rest;
    full := new byte[|rest| + 20 + 2];
    Copy(full, 0, t);
  }

  lemma IndexFits(index: nat)
    requires index < SIZE
    ensures |Decimal(index)| <= 20
  {
    assert Power(20) >= SIZE by {
      assert Power(4) == 10000;
      PowerAdds(4, 4);
      PowerAdds(8, 8);
      PowerAdds(16, 4);
    }
    DecimalLength(index, 20);
  }

  lemma {:induction false} PowerAdds(a: nat, b: nat)
    ensures Power(a + b) == Power(a) * Power(b)
  {
    if a > 0 { PowerAdds(a - 1, b); }
  }

  method MemberPointer(key: bytes, rest: bytes) returns (full: array<byte>)
    ensures fresh(full)
    ensures var t := [SLASH] + Encode(key) + rest; |t| < full.Length && full[..|t|] == t && full[|t|] == NUL
  {
    var length := PointerEncodedLength(key);
    full := new byte[|rest| + length + 2];
    full[0] := SLASH;
    assert full[..1] == [SLASH];
    EncodeStringAsPointer(full, 1, key);
    Copy(full, 1 + length, rest);
  }

  /** cJSONUtils_FindPointerFromObjectTo. */
  method FindPointerFromObjectTo(root: Node, target: int) returns (pointer: Option<bytes>)
    requires Countable(root)
    ensures pointer == FindPointer(root, target)
    decreases root
  {
    if root.id == target { return Some([]); }
    assert root.children[0..] == root.children;
    for i := 0 to |root.children|
      invariant FindPointer(root, target) == FindAmong(root.kind, root.children[i..], i, target)
    {
      var child := root.children[i];
      var targetPointer := FindPointerFromObjectTo(child, target);
      assert root.children[i..][1..] == root.children[i + 1..];
      if targetPointer.Some? {
        if root.kind == ArrayKind {
          var full := ArrayPointer(i, targetPointer.value);
          return Some(full[..1 + |Decimal(i)| + |targetPointer.value|]);
        }
        if root.kind == ObjectKind {
          var full := MemberPointer(child.key, targetPointer.value);
          return Some(full[..1 + |Encode(child.key)| + |targetPointer.value|]);
        }
        return None;
      }
    }
    return None;
  }
}
