/** The tree a cJSON node stands for, read through its `type`, `valuestring`, `valuedouble`,
    `string` and child list. A node without a known type, or a raw item without text, is Invalid. */
module Trees {
  import opened Bytes

  datatype Json =
    | Null
    | False
    | True
    | Number(d: real)
    | String(s: seq<byte>)
    | Raw(text: seq<byte>)
    | Array(items: seq<Json>)
    | Object(members: seq<Member>)
    | Invalid

  datatype Member = Member(key: seq<byte>, value: Json)

  function Max(a: int, b: int): int { if a < b then b else a }

  /** How deeply containers nest: 0 for a scalar, 1 for an empty container. */
  function Height(v: Json): nat
    decreases v
  {
    match v
    case Array(items) => 1 + ItemsHeight(items)
    case Object(members) => 1 + MembersHeight(members)
    case _ => 0
  }

  function ItemsHeight(items: seq<Json>): nat
    decreases items
  {
    if items == [] then 0 else Max(Height(items[0]), ItemsHeight(items[1..]))
  }

  function MembersHeight(members: seq<Member>): nat
    decreases members
  {
    if members == [] then 0 else Max(Height(members[0].value), MembersHeight(members[1..]))
  }

  /** The double that `parse_number` saturates into `valueint`. */
  function ValueInt(d: real): (n: int)
    ensures INT_MIN <= n <= INT_MAX
  {
    if d >= INT_MAX as real then INT_MAX
    else if d <= INT_MIN as real then INT_MIN
    else if d >= 0.0 then d.Floor
    else -((-d).Floor)
  }

  /** In range the fraction is dropped, towards zero; out of range the nearest int is taken. */
  lemma ValueIntIs(d: real)
    ensures d >= INT_MAX as real ==> ValueInt(d) == INT_MAX
    ensures d <= INT_MIN as real ==> ValueInt(d) == INT_MIN
    ensures 0.0 <= d < INT_MAX as real ==> ValueInt(d) as real <= d < ValueInt(d) as real + 1.0
    ensures INT_MIN as real < d <= 0.0 ==> ValueInt(d) as real - 1.0 < d <= ValueInt(d) as real
  {
  }

  /** A number the printer writes with `%d`. */
  predicate IsInt32(d: real) { d == ValueInt(d) as real }

  /** Every number is one that the printer writes with `%d`. */
  predicate Int32s(v: Json)
    decreases v
  {
    match v
    case Number(d) => IsInt32(d)
    case Array(items) => forall i :: 0 <= i < |items| ==> Int32s(items[i])
    case Object(members) => forall i :: 0 <= i < |members| ==> Int32s(members[i].value)
    case _ => true
  }

  /** No node is without a type, and no raw item without a text. */
  predicate Proper(v: Json)
    decreases v
  {
    match v
    case Invalid => false
    case Array(items) => forall i :: 0 <= i < |items| ==> Proper(items[i])
    case Object(members) => forall i :: 0 <= i < |members| ==> Proper(members[i].value)
    case _ => true
  }

  /** C strings, int32 numbers and no raw items: the trees that can be read back. */
  predicate Plain(v: Json)
    decreases v
  {
    match v
    case Number(d) => IsInt32(d)
    case String(s) => NulFree(s)
    case Raw(s) => false
    case Invalid => false
    case Array(items) => forall i :: 0 <= i < |items| ==> Plain(items[i])
    case Object(members) =>
      forall i :: 0 <= i < |members| ==> NulFree(members[i].key) && Plain(members[i].value)
    case _ => true
  }
}
