/** The text that print_value writes for a tree, as a pure function. */
module JsonText {
  import opened Bytes
  import opened JsonValue

  // ----- numbers: "%d" -----

  function Decimal(n: nat): (t: bytes)
    ensures |t| > 0 && forall i :: 0 <= i < |t| ==> IsDigit(t[i])
  {
    if n < 10 then [ZERO + n] else Decimal(n / 10) + [ZERO + n % 10]
  }

  function IntText(n: int): (t: bytes)
    ensures |t| > 0 && (t[0] == MINUS || IsDigit(t[0]))
  {
    if n < 0 then [MINUS] + Decimal(-n) else Decimal(n)
  }

  // ----- strings -----

  function HexDigit(d: nat): byte
    requires d < 16
  {
    if d < 10 then ZERO + d else LOWER_A + (d - 10)
  }

  /** The letter of a two character escape sequence, or 0 when there is none. */
  function EscapeLetter(b: byte): byte {
    if b == QUOTE || b == BACKSLASH then b
    else if b == BACKSPACE then LOWER_B
    else if b == FORM_FEED then LOWER_F
    else if b == LINE_FEED then LOWER_N
    else if b == CARRIAGE_RETURN then LOWER_R
    else if b == TAB then LOWER_T
    else 0
  }

  function EscapeByte(b: byte): (t: bytes)
    ensures b != NUL ==> NulFree(t)
    ensures |t| > 0
  {
    if b > 31 && b != QUOTE && b != BACKSLASH then [b]
    else if EscapeLetter(b) != 0 then [BACKSLASH, EscapeLetter(b)]
    else [BACKSLASH, LOWER_U, ZERO, ZERO, HexDigit(b / 16), HexDigit(b % 16)]
  }

  function Escape(s: bytes): bytes {
    if s == [] then [] else EscapeByte(s[0]) + Escape(s[1..])
  }

  function Quoted(s: bytes): bytes {
    [QUOTE] + Escape(s) + [QUOTE]
  }

  // ----- containers -----

  function Tabs(n: nat): (t: bytes)
    ensures |t| == n && forall i :: 0 <= i < n ==> t[i] == 9
  {
    seq(n, _ => TAB)
  }

  function Text(v: Value, format: bool, depth: nat): bytes
    requires Printable(v)
    decreases v, 0
  {
    match v
    case Null => NULL_TEXT
    case Bool(b) => if b then TRUE_TEXT else FALSE_TEXT
    case Num(d) => IntText(ValueInt(d))
    case Str(s) => Quoted(s)
    case Arr(items) => [LBRACKET] + ItemsText(items, format, depth + 1)
    case Obj(members) =>
      [LBRACE] + (NewLine(format) + MembersText(members, format, depth + 1))
  }

  /** What separates two array items. */
  function Separator(format: bool): bytes {
    if format then [COMMA, SPACE] else [COMMA]
  }

  /** The items of an array, and the bracket that closes it. */
  function ItemsText(items: seq<Value>, format: bool, depth: nat): bytes
    requires Printable(Arr(items))
    decreases items, 0
  {
    if items == [] then [RBRACKET]
    else Text(items[0], format, depth) + ItemsTail(items[1..], format, depth)
  }

  /** What follows an item: a separator and more items, or the closing bracket. */
  function ItemsTail(items: seq<Value>, format: bool, depth: nat): bytes
    requires Printable(Arr(items))
    decreases items, 1
  {
    if items == [] then [RBRACKET] else Separator(format) + ItemsText(items, format, depth)
  }

  /** What is written in front of a name or of a closing brace. */
  function Indent(format: bool, depth: nat): bytes {
    if format then Tabs(depth) else []
  }

  function Colon(format: bool): bytes {
    if format then [COLON, TAB] else [COLON]
  }

  function NewLine(format: bool): bytes {
    if format then [LINE_FEED] else []
  }

  /** The members of an object, and the brace that closes it. */
  function MembersText(members: seq<Member<Value>>, format: bool, depth: nat): bytes
    requires Printable(Obj(members)) && depth > 0
    decreases members, 0
  {
    if members == [] then Indent(format, depth - 1) + [RBRACE]
    else
      Indent(format, depth)
      + (Quoted(members[0].key)
         + (Colon(format)
            + (Text(members[0].item, format, depth)
               + MembersTail(members[1..], format, depth))))
  }

  /** What follows a member: a comma if there are more, and the rest on a new line. */
  function MembersTail(members: seq<Member<Value>>, format: bool, depth: nat): bytes
    requires Printable(Obj(members)) && depth > 0
    decreases members, 1
  {
    (if members == [] then [] else [COMMA]) + (NewLine(format) + MembersText(members, format, depth))
  }
}
