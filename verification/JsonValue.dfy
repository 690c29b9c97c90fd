/** JSON trees as plain values: what a cJSON node and everything below its `child` pointer stand for. */
module JsonValue {
  import opened Bytes

  const INT_MAX := 0x7fff_ffff
  const INT_MIN := -0x8000_0000
  /** CJSON_NESTING_LIMIT */
  const NESTING_LIMIT: nat := 1000

  /** A child of an object: its name (`string`) and what it holds. */
  datatype Member<T> = Member(key: bytes, item: T)

  datatype Value =
    | Null
    | Bool(b: bool)
    | Num(d: real)
    | Str(s: bytes)
    | Arr(items: seq<Value>)
    | Obj(members: seq<Member<Value>>)

  /** valueint: the truncated and saturated form of valuedouble. */
  function ValueInt(d: real): int {
    if d >= INT_MAX as real then INT_MAX
    else if d <= INT_MIN as real then INT_MIN
    else if d >= 0.0 then d.Floor
    else -((-d).Floor)
  }

  /** The numbers that are printed with "%d". */
  predicate IsInt(d: real) {
    d == ValueInt(d) as real
  }

  /** These are the whole numbers that an int of 32 bits holds. */
  lemma IsIntExactly(d: real)
    ensures IsInt(d) <==> d.Floor as real == d && -0x8000_0000 <= d.Floor <= 0x7fff_ffff
  {
    var n := ValueInt(d);
    if IsInt(d) { assert d.Floor == n; }
    if d.Floor as real == d { assert (-d).Floor == -d.Floor; }
  }

  /** Trees whose numbers are ints and whose strings are C strings. */
  predicate Printable(v: Value) {
    match v
    case Num(d) => IsInt(d)
    case Str(s) => NulFree(s)
    case Arr(items) => forall i :: 0 <= i < |items| ==> Printable(items[i])
    case Obj(members) => forall i :: 0 <= i < |members| ==> NulFree(members[i].key) && Printable(members[i].item)
    case _ => true
  }

  function Max(a: nat, b: nat): nat { if a < b then b else a }

  /** How many containers are nested inside each other. */
  function Nest(v: Value): nat
    decreases v, 0
  {
    match v
    case Arr(items) => 1 + NestItems(items)
    case Obj(members) => 1 + NestMembers(members)
    case _ => 0
  }

  function NestItems(items: seq<Value>): nat
    decreases items, 0
  {
    if items == [] then 0 else Max(Nest(items[0]), NestItems(items[1..]))
  }

  function NestMembers(members: seq<Member<Value>>): nat
    decreases members, 0
  {
    if members == [] then 0 else Max(Nest(members[0].item), NestMembers(members[1..]))
  }
}
