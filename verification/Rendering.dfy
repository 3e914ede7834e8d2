/** The text of a tree: what a print produces, as a function of the tree, of the `format` flag
    and of the nesting depth `d` that formatted objects indent by. */
module Rendering {
  import opened Bytes
  import opened Trees
  import Strings
  import Numbers

  function Tabs(n: nat): (s: seq<byte>)
    ensures |s| == n && forall i :: 0 <= i < n ==> s[i] == TAB
  {
    if n == 0 then [] else [TAB] + Tabs(n - 1)
  }

  function Indent(fmt: bool, d: nat): seq<byte> { if fmt then Tabs(d) else [] }

  function LineEnd(fmt: bool): seq<byte> { if fmt then [NEWLINE] else [] }

  function ItemSeparator(fmt: bool): seq<byte> { if fmt then [COMMA, SPACE] else [COMMA] }

  function KeySeparator(fmt: bool): seq<byte> { if fmt then [COLON, TAB] else [COLON] }

  function Render(v: Json, fmt: bool, d: nat): seq<byte>
    decreases v, 1
  {
    match v
    case Null => NULL_TEXT
    case False => FALSE_TEXT
    case True => TRUE_TEXT
    case Number(x) => Numbers.Decimal(ValueInt(x))
    case String(s) => Strings.Quoted(s)
    case Raw(text) => text
    case Invalid => []
    case Array(items) => [LBRACKET] + ItemsText(items, fmt, d + 1)
    case Object(members) => ([LBRACE] + LineEnd(fmt)) + MembersText(members, fmt, d)
  }

  /** The elements of an array up to its closing bracket. */
  function ItemsText(items: seq<Json>, fmt: bool, d: nat): (t: seq<byte>)
    ensures t != []
    decreases items, 0
  {
    if items == [] then [RBRACKET]
    else Render(items[0], fmt, d) + AfterItem(items, fmt, d)
  }

  function AfterItem(items: seq<Json>, fmt: bool, d: nat): (t: seq<byte>)
    requires items != []
    ensures t != []
    decreases items[1..], 1
  {
    (if |items| > 1 then ItemSeparator(fmt) else []) + ItemsText(items[1..], fmt, d)
  }

  /** The members of an object at depth `d` up to its closing brace. */
  function MembersText(members: seq<Member>, fmt: bool, d: nat): (t: seq<byte>)
    ensures t != []
    decreases members, 1
  {
    if members == [] then Indent(fmt, d) + [RBRACE]
    else Indent(fmt, d + 1) + FromKey(members, fmt, d)
  }

  function FromKey(members: seq<Member>, fmt: bool, d: nat): seq<byte>
    requires members != []
    decreases members, 0
  {
    Strings.Quoted(members[0].key)
    + (KeySeparator(fmt) + (Render(members[0].value, fmt, d + 1) + AfterValue(members, fmt, d)))
  }

  function AfterValue(members: seq<Member>, fmt: bool, d: nat): (t: seq<byte>)
    requires members != []
    ensures t != []
    decreases members[1..], 2
  {
    ((if |members| > 1 then [COMMA] else []) + LineEnd(fmt)) + MembersText(members[1..], fmt, d)
  }

  lemma MembersTextIs(members: seq<Member>, fmt: bool, d: nat)
    ensures members == [] ==> MembersText(members, fmt, d) == Indent(fmt, d) + [RBRACE]
    ensures members != [] ==> MembersText(members, fmt, d) == Indent(fmt, d + 1) + FromKey(members, fmt, d)
  {
  }

  lemma KeyStarts(members: seq<Member>, d: nat)
    requires members != []
    ensures var t := FromKey(members, false, d); t != [] && t[0] == QUOTE
  {
    hide Strings.Escape, AfterValue, Render;
  }
}
