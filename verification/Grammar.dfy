/** The recursive-descent parser as a function of the buffer: the tree and the offset behind it,
    or the offset at which parsing stops. Offsets step forwards and back as `parse_buffer.offset`
    does. */
module Grammar {
  import opened Bytes
  import opened Trees
  import opened Strings
  import opened Numbers

  /** CJSON_NESTING_LIMIT */
  const NESTING_LIMIT := 1000

  /** The first byte above 32 at or after `o`, or the end of the buffer. */
  function BlankEnd(c: seq<byte>, o: nat): (e: nat)
    requires o <= |c|
    ensures o <= e <= |c|
    ensures forall i :: o <= i < e ==> c[i] <= 32
    ensures e < |c| ==> c[e] > 32
    decreases |c| - o
  {
    if o < |c| && c[o] <= 32 then BlankEnd(c, o + 1) else o
  }

  /** `buffer_skip_whitespace`: it steps back onto the last byte when only blanks are left. */
  function SkipBlanks(c: seq<byte>, o: nat): (s: nat)
    requires o <= |c|
    ensures o <= s <= |c|
    ensures o < |c| ==> s < |c|
  {
    if o == |c| then o
    else
      var e := BlankEnd(c, o);
      if e == |c| then e - 1 else e
  }

  predicate Sees(c: seq<byte>, o: nat, b: byte) { o < |c| && c[o] == b }

  datatype Parse = Ok(v: Json, end: nat) | Fail(at: nat)
  datatype ItemsParse = Items(items: seq<Json>, itemsEnd: nat) | NoItems(itemsAt: nat)
  datatype MembersParse = Members(members: seq<Member>, membersEnd: nat) | NoMembers(membersAt: nat)

  /** `parse_value` at `o`, at nesting depth `d`. */
  function ParseValue(c: seq<byte>, o: nat, d: nat): (r: Parse)
    requires o <= |c|
    ensures r.Ok? ==> o < r.end <= |c|
    ensures r.Fail? ==> r.at <= |c|
    decreases |c| - o, 2
  {
    if At(c, o, NULL_TEXT) then Ok(Null, o + 4)
    else if At(c, o, FALSE_TEXT) then Ok(False, o + 5)
    else if At(c, o, TRUE_TEXT) then Ok(True, o + 4)
    else if Sees(c, o, QUOTE) then
      match ReadString(c, o)
      case StringRead(s, end) => Ok(String(s), end)
      case BadString(at) => Fail(at)
    else if o < |c| && (c[o] == MINUS || IsDigit(c[o])) then
      match ReadNumber(c, o)
      case NumberRead(x, end) => Ok(Number(x), end)
      case NoNumber => Fail(o)
    else if Sees(c, o, LBRACKET) then ParseArray(c, o, d)
    else if Sees(c, o, LBRACE) then ParseObject(c, o, d)
    else Fail(o)
  }

  /** `parse_array`, the bracket being at `o`. */
  function ParseArray(c: seq<byte>, o: nat, d: nat): (r: Parse)
    requires Sees(c, o, LBRACKET)
    ensures r.Ok? ==> o < r.end <= |c|
    ensures r.Fail? ==> r.at <= |c|
    decreases |c| - o, 1
  {
    if d >= NESTING_LIMIT then Fail(o)
    else
      var first := SkipBlanks(c, o + 1);
      if Sees(c, first, RBRACKET) then Ok(Array([]), first + 1)
      else if first >= |c| then Fail(first - 1)
      else
        match ParseItems(c, first - 1, d + 1)
        case Items(items, end) => Ok(Array(items), end)
        case NoItems(at) => Fail(at)
  }

  /** The loop of `parse_array`: `o` is the byte in front of the next element. */
  function ParseItems(c: seq<byte>, o: nat, d: nat): (r: ItemsParse)
    requires o < |c|
    ensures r.Items? ==> o + 1 < r.itemsEnd <= |c| && r.items != []
    ensures r.NoItems? ==> r.itemsAt <= |c|
    decreases |c| - o, 0
  {
    match ParseValue(c, SkipBlanks(c, o + 1), d)
    case Fail(at) => NoItems(at)
    case Ok(v, end) =>
      var next := SkipBlanks(c, end);
      if Sees(c, next, COMMA) then
        match ParseItems(c, next, d)
        case Items(items, itemsEnd) => Items([v] + items, itemsEnd)
        case NoItems(at) => NoItems(at)
      else if Sees(c, next, RBRACKET) then Items([v], next + 1)
      else NoItems(next)
  }

  /** `parse_object`, the brace being at `o`. */
  function ParseObject(c: seq<byte>, o: nat, d: nat): (r: Parse)
    requires Sees(c, o, LBRACE)
    ensures r.Ok? ==> o < r.end <= |c|
    ensures r.Fail? ==> r.at <= |c|
    decreases |c| - o, 1
  {
    if d >= NESTING_LIMIT then Fail(o)
    else
      var first := SkipBlanks(c, o + 1);
      if Sees(c, first, RBRACE) then Ok(Object([]), first + 1)
      else if first >= |c| then Fail(first - 1)
      else
        match ParseMembers(c, first - 1, d + 1)
        case Members(members, end) => Ok(Object(members), end)
        case NoMembers(at) => Fail(at)
  }

  datatype KeyRead = KeyRead(key: seq<byte>, value: nat) | NoKey(keyAt: nat)

  /** The name and the colon of a member; `value` is where its value starts. */
  function ReadKey(c: seq<byte>, o: nat): (r: KeyRead)
    requires o < |c|
    ensures r.KeyRead? ==> o + 1 < r.value <= |c| && NulFree(r.key)
    ensures r.NoKey? ==> r.keyAt <= |c|
  {
    if o + 1 >= |c| then NoKey(o)
    else
      match ReadString(c, SkipBlanks(c, o + 1))
      case BadString(at) => NoKey(at)
      case StringRead(key, end) =>
        var colon := SkipBlanks(c, end);
        if Sees(c, colon, COLON) then KeyRead(key, SkipBlanks(c, colon + 1)) else NoKey(colon)
  }

  /** The loop of `parse_object`: `o` is the byte in front of the next member. */
  function ParseMembers(c: seq<byte>, o: nat, d: nat): (r: MembersParse)
    requires o < |c|
    ensures r.Members? ==> o + 1 < r.membersEnd <= |c| && r.members != []
    ensures r.NoMembers? ==> r.membersAt <= |c|
    decreases |c| - o, 0
  {
    match ReadKey(c, o)
    case NoKey(at) => NoMembers(at)
    case KeyRead(key, start) =>
      match ParseValue(c, start, d)
      case Fail(at) => NoMembers(at)
      case Ok(v, end) =>
        var next := SkipBlanks(c, end);
        if Sees(c, next, COMMA) then
          match ParseMembers(c, next, d)
          case Members(members, membersEnd) => Members([Member(key, v)] + members, membersEnd)
          case NoMembers(at) => NoMembers(at)
        else if Sees(c, next, RBRACE) then Members([Member(key, v)], next + 1)
        else NoMembers(next)
  }

  /** The UTF-8 byte order mark. */
  const BYTE_ORDER_MARK: seq<byte> := [0xEF, 0xBB, 0xBF]

  function TextStart(c: seq<byte>): (o: nat)
    ensures o <= |c|
  {
    if 4 < |c| && At(c, 0, BYTE_ORDER_MARK) then 3 else 0
  }

  datatype TextParse = Parsed(root: Json, parseEnd: nat) | Rejected(position: nat)

  /** The position reported for a failure at offset `at`. */
  function ErrorPosition(c: seq<byte>, at: nat): nat {
    if at < |c| then at else if |c| > 0 then |c| - 1 else 0
  }

  /** `cJSON_ParseWithLengthOpts` on a buffer of `|c|` bytes. */
  function ParseText(c: seq<byte>, requireNul: bool): (r: TextParse)
    ensures r.Parsed? ==> 0 < r.parseEnd <= |c|
    ensures r.Rejected? ==> r.position <= |c| && (|c| > 0 ==> r.position < |c|)
  {
    if |c| == 0 then Rejected(0)
    else
      match ParseValue(c, SkipBlanks(c, TextStart(c)), 0)
      case Fail(at) => Rejected(ErrorPosition(c, at))
      case Ok(v, end) =>
        if !requireNul then Parsed(v, end)
        else
          var last := SkipBlanks(c, end);
          if Sees(c, last, 0) then Parsed(v, last) else Rejected(ErrorPosition(c, last))
  }

  // ---------- what is known of every parsed tree ----------

  /** Strings and names are C strings, and nothing parses to a raw item. */
  predicate Clean(v: Json)
    decreases v
  {
    match v
    case String(s) => NulFree(s)
    case Raw(_) => false
    case Invalid => false
    case Array(items) => forall i :: 0 <= i < |items| ==> Clean(items[i])
    case Object(members) =>
      forall i :: 0 <= i < |members| ==> NulFree(members[i].key) && Clean(members[i].value)
    case _ => true
  }

  /** Whatever the buffer holds, a tree that is accepted is clean and nests within the limit. */
  lemma {:induction false} ParsedValue(c: seq<byte>, o: nat, d: nat)
    requires o <= |c| && d <= NESTING_LIMIT
    ensures var r := ParseValue(c, o, d); r.Ok? ==> o < r.end <= |c| && Clean(r.v) && Height(r.v) + d <= NESTING_LIMIT
    decreases |c| - o, 2
  {
    hide Strtod, FindClose, Unescape, ParseItems, ParseMembers;
    if Sees(c, o, LBRACKET) && d < NESTING_LIMIT {
      var first := SkipBlanks(c, o + 1);
      if !Sees(c, first, RBRACKET) && first < |c| {
        ParsedItems(c, first - 1, d + 1);
      }
    } else if Sees(c, o, LBRACE) && d < NESTING_LIMIT {
      var first := SkipBlanks(c, o + 1);
      if !Sees(c, first, RBRACE) && first < |c| {
        ParsedMembers(c, first - 1, d + 1);
      }
    }
  }

  lemma {:induction false} ParsedItems(c: seq<byte>, o: nat, d: nat)
    requires o < |c| && d <= NESTING_LIMIT
    ensures var r := ParseItems(c, o, d);
            r.Items? ==> Clean(Array(r.items)) && ItemsHeight(r.items) + d <= NESTING_LIMIT
    decreases |c| - o, 0
  {
    hide ParseValue, SkipBlanks;
    var start := SkipBlanks(c, o + 1);
    ParsedValue(c, start, d);
    var v := ParseValue(c, start, d);
    if v.Ok? {
      var next := SkipBlanks(c, v.end);
      if Sees(c, next, COMMA) {
        ParsedItems(c, next, d);
      }
    }
  }

  lemma KeyClean(c: seq<byte>, o: nat)
    requires o < |c|
    ensures var r := ReadKey(c, o); r.KeyRead? ==> o + 1 < r.value <= |c| && NulFree(r.key)
  {
  }

  lemma {:induction false} ParsedMembers(c: seq<byte>, o: nat, d: nat)
    requires o < |c| && d <= NESTING_LIMIT
    ensures var r := ParseMembers(c, o, d);
            r.Members? ==> Clean(Object(r.members)) && MembersHeight(r.members) + d <= NESTING_LIMIT
    decreases |c| - o, 0
  {
    var key := ReadKey(c, o);
    KeyClean(c, o);
    hide ParseValue, ReadKey;
    if key.KeyRead? {
      ParsedValue(c, key.value, d);
      var v := ParseValue(c, key.value, d);
      if v.Ok? {
        var next := SkipBlanks(c, v.end);
        var m := Member(key.key, v.v);
        hide Clean, MembersHeight;
        if Sees(c, next, COMMA) {
          ParsedMembers(c, next, d);
          var rest := ParseMembers(c, next, d);
          ConsClean(m, if rest.Members? then rest.members else []);
        } else {
          ConsClean(m, []);
          assert [m] + [] == [m];
        }
      }
    }
  }

  lemma ConsClean(m: Member, rest: seq<Member>)
    ensures Clean(Object([])) && MembersHeight([]) == 0
    ensures NulFree(m.key) && Clean(m.value) && Clean(Object(rest)) ==> Clean(Object([m] + rest))
    ensures MembersHeight([m] + rest) == Max(Height(m.value), MembersHeight(rest))
  {
    assert ([m] + rest)[1..] == rest;
  }

  // ---------- dispatch on the first byte ----------

  lemma FirstByteDiffers(c: seq<byte>, o: nat)
    requires o < |c| && c[o] != 110 && c[o] != 102 && c[o] != 116
    ensures !At(c, o, NULL_TEXT) && !At(c, o, FALSE_TEXT) && !At(c, o, TRUE_TEXT)
  {
    if At(c, o, NULL_TEXT) { AtIndex(c, o, NULL_TEXT, 0); }
    if At(c, o, FALSE_TEXT) { AtIndex(c, o, FALSE_TEXT, 0); }
    if At(c, o, TRUE_TEXT) { AtIndex(c, o, TRUE_TEXT, 0); }
  }

  lemma Dispatch(c: seq<byte>, o: nat, d: nat)
    requires o < |c|
    ensures c[o] == LBRACKET ==> ParseValue(c, o, d) == ParseArray(c, o, d)
    ensures c[o] == LBRACE ==> ParseValue(c, o, d) == ParseObject(c, o, d)
    ensures c[o] == QUOTE ==>
              ParseValue(c, o, d) == match ReadString(c, o)
                                     case StringRead(s, end) => Ok(String(s), end)
                                     case BadString(at) => Fail(at)
    ensures c[o] == MINUS || IsDigit(c[o]) ==>
              ParseValue(c, o, d) == match ReadNumber(c, o)
                                     case NumberRead(x, end) => Ok(Number(x), end)
                                     case NoNumber => Fail(o)
  {
    hide At, ReadString, ReadNumber, ParseArray, ParseObject;
    if c[o] == LBRACKET || c[o] == LBRACE || c[o] == QUOTE || c[o] == MINUS || IsDigit(c[o]) {
      FirstByteDiffers(c, o);
    }
  }

  lemma BlankEndIs(c: seq<byte>, o: nat, e: nat)
    requires o <= e <= |c|
    requires forall i :: o <= i < e ==> c[i] <= 32
    requires e < |c| ==> c[e] > 32
    ensures BlankEnd(c, o) == e
  {
  }

  lemma SkipsTo(c: seq<byte>, o: nat, s: nat)
    requires o <= s < |c| && c[s] > 32
    requires forall i :: o <= i < s ==> c[i] <= 32
    ensures SkipBlanks(c, o) == s
  {
    BlankEndIs(c, o, s);
  }
}
